/** The stress metric of ReEDS_Augur/stress_periods.py: hourly unserved
    energy (EUE) per region, rolled up to a hierarchy level, turned into a
    per-day metric (EUE or NEUE, summed or maximised over the day's hours) and
    ranked into one row per calendar day; and the annual NEUE per level that
    decides whether a criterion failed. */
module StressMetric {
  import opened Wrappers
  import opened Seqs
  import opened Text
  import opened Frames
  import opened Calendar

  /** NEUE is expressed in parts per million of load. */
  const Million: real := 1000000.0

  /** The levels `get_annual_neue` reports, in its order. */
  const NeueLevels: seq<string> := ["country", "interconnect", "nercr", "transreg", "transgrp", "st", "r"]

  /** `hierarchy.csv`: the model regions (its index) and, per column, the
      aggregate each region belongs to. */
  datatype Hierarchy = Hierarchy(regions: seq<string>, columns: map<string, map<string, string>>)

  datatype Metric = EUE | NEUE

  datatype Agg = SumAgg | MaxAgg

  /** One (day, region) entry of the stress table. */
  datatype StressDay = StressDay(period: string, day: Date, region: string, value: real)

  function ValueOf(x: StressDay): real { x.value }

  function DayOf(x: StressDay): Date { x.day }

  // ---------------------------------------------------------------------------
  // Region map
  // ---------------------------------------------------------------------------

  /** `get_rmap`: level 'r' maps every region to itself, any other level is
      the hierarchy column of that name. */
  function RegionMap(h: Hierarchy, level: string): (r: Result<map<string, string>>)
    ensures r.Ok? <==> level == "r" || level in h.columns
    ensures r.Err? ==> r.error == KeyError(level)
    ensures level == "r" ==> forall x :: MapName(r.value, x) == x
    ensures level != "r" && r.Ok? ==> forall x :: x in h.columns[level] ==> MapName(r.value, x) == h.columns[level][x]
  {
    if level == "r" then Ok(map x | x in h.regions :: x)
    else if level in h.columns then Ok(h.columns[level])
    else Err(KeyError(level))
  }

  /** `rename(columns=rmap)` as a function on column names. */
  function Renamer(rmap: map<string, string>): string -> string
  {
    x => MapName(rmap, x)
  }

  // ---------------------------------------------------------------------------
  // Per-day values
  // ---------------------------------------------------------------------------

  /** The number of hours that fall on day `d`. */
  function DayCount(times: seq<Date>, d: Date): (c: nat)
    ensures d in times ==> c > 0
    decreases |times|
  {
    if |times| == 0 then 0
    else
      InPrefixOrLast(times, d);
      DayCount(times[..|times| - 1], d) + (if times[|times| - 1] == d then 1 else 0)
  }

  /** The values of the hours that fall on day `d`, in time order. */
  function DayValues(vals: seq<real>, times: seq<Date>, d: Date): (r: seq<real>)
    requires |vals| == |times|
    ensures |r| == DayCount(times, d)
    ensures (forall h :: 0 <= h < |vals| ==> vals[h] > 0.0) ==> forall i :: 0 <= i < |r| ==> r[i] > 0.0
    decreases |times|
  {
    if |times| == 0 then []
    else
      var r' := DayValues(vals[..|vals| - 1], times[..|times| - 1], d);
      r' + (if times[|times| - 1] == d then [vals[|vals| - 1]] else [])
  }

  ghost predicate Positive(s: seq<real>)
  {
    forall h :: 0 <= h < |s| ==> s[h] > 0.0
  }

  /** Hour-by-hour ratio `dfeue / dfload`. */
  function Ratio(e: seq<real>, l: seq<real>): (r: seq<real>)
    requires |e| == |l| && Positive(l)
    ensures |r| == |e|
    ensures forall h :: 0 <= h < |e| ==> r[h] == e[h] / l[h]
  {
    seq(|e|, h requires 0 <= h < |e| => e[h] / l[h])
  }

  lemma {:induction false} DayValuesRatio(e: seq<real>, l: seq<real>, times: seq<Date>, d: Date)
    requires |e| == |l| == |times| && Positive(l)
    ensures DayValues(Ratio(e, l), times, d) == Ratio(DayValues(e, times, d), DayValues(l, times, d))
    decreases |times|
  {
    if |times| > 0 {
      var n := |times| - 1;
      assert Ratio(e, l)[..n] == Ratio(e[..n], l[..n]);
      DayValuesRatio(e[..n], l[..n], times[..n], d);
    }
  }

  /** The metric of one region column on day `d` (stress_periods.py 139-174):
      EUE summed or maximised over the day; NEUE under 'sum' as the day's EUE
      over the day's load, under 'max' as the largest hourly EUE/load ratio. */
  function DailyValue(metric: Metric, agg: Agg, e: seq<real>, l: seq<real>, times: seq<Date>, d: Date): real
    requires |e| == |l| == |times| && d in times
    requires metric == NEUE ==> Positive(l)
  {
    match (metric, agg)
    case (EUE, SumAgg) => Sum(DayValues(e, times, d))
    case (EUE, MaxAgg) => Max(DayValues(e, times, d))
    case (NEUE, SumAgg) =>
      var dl := DayValues(l, times, d);
      SumPositive(dl);
      Sum(DayValues(e, times, d)) / Sum(dl) * Million
    case (NEUE, MaxAgg) => Max(DayValues(Ratio(e, l), times, d)) * Million
  }

  lemma {:induction false} SumPositive(s: seq<real>)
    requires |s| > 0 && Positive(s)
    ensures Sum(s) > 0.0
    decreases |s|
  {
    if |s| > 1 {
      SumPositive(s[..|s| - 1]);
    }
  }

  /** A bound `m` on every hourly ratio bounds the totals the same way. */
  lemma {:induction false} SumScaledBound(e: seq<real>, l: seq<real>, m: real)
    requires |e| == |l|
    requires forall h :: 0 <= h < |e| ==> e[h] <= m * l[h]
    ensures Sum(e) <= m * Sum(l)
    decreases |e|
  {
    if |e| > 0 {
      var n := |e| - 1;
      SumScaledBound(e[..n], l[..n], m);
    }
  }

  /** A bound on every hourly ratio bounds the ratio of the totals. */
  lemma RatioOfSumsBounded(e: seq<real>, l: seq<real>, m: real)
    requires |e| == |l| > 0 && Positive(l)
    requires forall h :: 0 <= h < |e| ==> e[h] <= m * l[h]
    ensures Sum(l) > 0.0
    ensures Sum(e) / Sum(l) <= m
  {
    SumPositive(l);
    SumScaledBound(e, l, m);
    TotalsRatio(e, l, m);
  }

  lemma TotalsRatio(e: seq<real>, l: seq<real>, m: real)
    requires Sum(l) > 0.0 && Sum(e) <= m * Sum(l)
    ensures Sum(e) / Sum(l) <= m
  {
    DivBound(Sum(e), Sum(l), m);
  }

  /** The ratio of totals never exceeds the largest hourly ratio. */
  lemma RatioOfSumsAtMostMaxRatio(e: seq<real>, l: seq<real>)
    requires |e| == |l| > 0 && Positive(l)
    ensures Sum(l) > 0.0
    ensures Sum(e) / Sum(l) <= Max(Ratio(e, l))
  {
    var m := Max(Ratio(e, l));
    HoursAtMostMaxRatio(e, l, m);
    RatioOfSumsBounded(e, l, m);
  }

  /** Every hour's EUE is at most any bound on the hourly ratios times its load. */
  lemma HoursAtMostMaxRatio(e: seq<real>, l: seq<real>, m: real)
    requires |e| == |l| && Positive(l)
    requires forall h :: 0 <= h < |e| ==> Ratio(e, l)[h] <= m
    ensures forall h :: 0 <= h < |e| ==> e[h] <= m * l[h]
  {
    RatioTimesLoad(e, l);
    QuotientsBounded(e, l, Ratio(e, l), m);
  }

  /** Each hourly ratio times that hour's load gives back the hour's EUE. */
  lemma RatioTimesLoad(e: seq<real>, l: seq<real>)
    requires |e| == |l| && Positive(l)
    ensures forall h :: 0 <= h < |e| ==> Ratio(e, l)[h] * l[h] == e[h]
  {
    var q := Ratio(e, l);
    forall h | 0 <= h < |e| ensures q[h] * l[h] == e[h] {
      QuotientTimesDivisor(q[h], e[h], l[h]);
    }
  }

  lemma QuotientTimesDivisor(x: real, a: real, b: real)
    requires b > 0.0 && x == a / b
    ensures x * b == a
  {
  }

  /** Division-free form: quotients at most `m` give dividends at most `m` times the divisor. */
  lemma QuotientsBounded(e: seq<real>, l: seq<real>, q: seq<real>, m: real)
    requires |q| == |e| == |l| && Positive(l)
    requires forall h :: 0 <= h < |q| ==> q[h] * l[h] == e[h] && q[h] <= m
    ensures forall h :: 0 <= h < |e| ==> e[h] <= m * l[h]
  {
    forall h | 0 <= h < |e| ensures e[h] <= m * l[h] {
      MulMonotone(q[h], m, l[h]);
    }
  }

  lemma MulMonotone(a: real, b: real, c: real)
    requires a <= b && c > 0.0
    ensures a * c <= b * c
  {
  }

  lemma DivBound(a: real, b: real, m: real)
    requires b > 0.0 && a <= m * b
    ensures a / b <= m
  {
    assert a / b * b == a;
    if a / b > m {
      MulStrict(m, a / b, b);
    }
  }

  lemma MulStrict(a: real, b: real, c: real)
    requires a < b && c > 0.0
    ensures a * c < b * c
  {
  }

  /** On any day, NEUE under 'sum' is bounded by NEUE under 'max'; the two
      formulas differ (see `NeueSumAndMaxDiffer`). */
  lemma DailyNeueSumAtMostMax(e: seq<real>, l: seq<real>, times: seq<Date>, d: Date)
    requires |e| == |l| == |times| && d in times && Positive(l)
    ensures DailyValue(NEUE, SumAgg, e, l, times, d) <= DailyValue(NEUE, MaxAgg, e, l, times, d)
  {
    DayValuesRatio(e, l, times, d);
    RatioOfSumsAtMostMaxRatio(DayValues(e, times, d), DayValues(l, times, d));
  }

  /** One day of two hours with EUE [1, 0] and load [1, 3]: 'sum' gives
      1/4 of a million ppm, 'max' gives a full million. */
  lemma NeueSumAndMaxDiffer()
    ensures var d := Date(2012, 7, 1);
            DailyValue(NEUE, SumAgg, [1.0, 0.0], [1.0, 3.0], [d, d], d) == 250000.0
            && DailyValue(NEUE, MaxAgg, [1.0, 0.0], [1.0, 3.0], [d, d], d) == 1000000.0
  {
    var d := Date(2012, 7, 1);
    DayValuesWholeDay([1.0, 0.0], [d, d], d);
    DayValuesWholeDay([1.0, 3.0], [d, d], d);
    var q := Ratio([1.0, 0.0], [1.0, 3.0]);
    assert q == [1.0, 0.0];
    DayValuesWholeDay(q, [d, d], d);
    assert Sum([1.0, 0.0]) == 1.0 by { assert [1.0, 0.0][..1] == [1.0]; }
    assert Sum([1.0, 3.0]) == 4.0 by { assert [1.0, 3.0][..1] == [1.0]; }
  }

  /** When every hour falls on day `d`, the day's values are all the values. */
  lemma {:induction false} DayValuesWholeDay(vals: seq<real>, times: seq<Date>, d: Date)
    requires |vals| == |times| && forall h :: 0 <= h < |times| ==> times[h] == d
    ensures DayValues(vals, times, d) == vals
    decreases |times|
  {
    if |times| > 0 {
      var n := |times| - 1;
      DayValuesWholeDay(vals[..n], times[..n], d);
      assert vals[..n] + [vals[n]] == vals;
    }
  }

  // ---------------------------------------------------------------------------
  // The daily table
  // ---------------------------------------------------------------------------

  ghost predicate Rolled(eR: Frame, lR: Frame, times: seq<Date>, metric: Metric)
  {
    && |eR| == |lR|
    && Rect(eR, |times|) && Rect(lR, |times|)
    && (metric == NEUE ==> forall k :: 0 <= k < |lR| ==> Positive(lR[k].values))
  }

  /** The entry of column `k` on day `d`. */
  function Entry(eR: Frame, lR: Frame, times: seq<Date>, metric: Metric, agg: Agg,
                 periodOf: Date -> string, k: nat, d: Date): StressDay
    requires Rolled(eR, lR, times, metric) && k < |eR| && d in times
  {
    StressDay(periodOf(d), d, eR[k].name,
              DailyValue(metric, agg, eR[k].values, lR[k].values, times, d))
  }

  /** `r` holds the entries of the days `days` and nothing else: every
      element is the entry of some column on one of those days, and every
      such entry occurs. */
  ghost predicate Stacked(eR: Frame, lR: Frame, times: seq<Date>, metric: Metric, agg: Agg,
                          periodOf: Date -> string, days: seq<Date>, r: seq<StressDay>)
    requires Rolled(eR, lR, times, metric)
    requires forall i :: 0 <= i < |days| ==> days[i] in times
  {
    && (forall i :: 0 <= i < |r| ==>
          r[i].day in days && exists k :: 0 <= k < |eR| && r[i] == Entry(eR, lR, times, metric, agg, periodOf, k, r[i].day))
    && (forall d, k :: d in days && 0 <= k < |eR| ==> Entry(eR, lR, times, metric, agg, periodOf, k, d) in r)
  }

  /** `dfmetric_period.stack('r')`: one entry per day and column, day-major. */
  function Stack(eR: Frame, lR: Frame, times: seq<Date>, metric: Metric, agg: Agg,
                 periodOf: Date -> string, days: seq<Date>): (r: seq<StressDay>)
    requires Rolled(eR, lR, times, metric)
    requires forall i :: 0 <= i < |days| ==> days[i] in times
    ensures Stacked(eR, lR, times, metric, agg, periodOf, days, r)
    decreases |days|
  {
    if |days| == 0 then []
    else
      var d := days[|days| - 1];
      var r' := Stack(eR, lR, times, metric, agg, periodOf, days[..|days| - 1]);
      var row := DayRow(eR, lR, times, metric, agg, periodOf, d);
      var s := r' + row;
      StackStep(eR, lR, times, metric, agg, periodOf, days, r', row, s);
      s
  }

  /** The entries of day `d`, one per column. */
  function DayRow(eR: Frame, lR: Frame, times: seq<Date>, metric: Metric, agg: Agg,
                  periodOf: Date -> string, d: Date): (row: seq<StressDay>)
    requires Rolled(eR, lR, times, metric) && d in times
    ensures |row| == |eR|
    ensures forall k :: 0 <= k < |eR| ==> row[k] == Entry(eR, lR, times, metric, agg, periodOf, k, d)
  {
    seq(|eR|, k requires 0 <= k < |eR| => Entry(eR, lR, times, metric, agg, periodOf, k, d))
  }

  lemma StackStep(eR: Frame, lR: Frame, times: seq<Date>, metric: Metric, agg: Agg,
                  periodOf: Date -> string, days: seq<Date>, r': seq<StressDay>, row: seq<StressDay>,
                  s: seq<StressDay>)
    requires Rolled(eR, lR, times, metric)
    requires |days| > 0 && forall i :: 0 <= i < |days| ==> days[i] in times
    requires Stacked(eR, lR, times, metric, agg, periodOf, days[..|days| - 1], r')
    requires row == DayRow(eR, lR, times, metric, agg, periodOf, days[|days| - 1])
    requires s == r' + row
    ensures Stacked(eR, lR, times, metric, agg, periodOf, days, s)
  {
    var last := days[|days| - 1];
    forall i | 0 <= i < |s|
      ensures s[i].day in days
              && exists k :: 0 <= k < |eR| && s[i] == Entry(eR, lR, times, metric, agg, periodOf, k, s[i].day)
    {
      if i < |r'| {
        assert s[i] == r'[i];
        var j :| 0 <= j < |days| - 1 && days[..|days| - 1][j] == r'[i].day;
        assert days[j] == s[i].day;
      } else {
        var k := i - |r'|;
        assert s[i] == row[k];
      }
    }
    forall d, k | d in days && 0 <= k < |eR|
      ensures Entry(eR, lR, times, metric, agg, periodOf, k, d) in s
    {
      var j :| 0 <= j < |days| && days[j] == d;
      if j < |days| - 1 {
        assert days[..|days| - 1][j] == d;
      } else {
        assert s[|r'| + k] == row[k];
      }
    }
  }

  /** Lines 177-184: sort descending, drop zero entries, keep the first
      (largest) entry of each calendar day. */
  function TopPerDay(recs: seq<StressDay>): (r: seq<StressDay>)
    ensures SortedDesc(r, ValueOf)
    ensures KeysUnique(r, DayOf)
    ensures forall i :: 0 <= i < |r| ==> r[i].value != 0.0 && r[i] in recs
  {
    var sorted := SortDesc(recs, ValueOf);
    var nonzero := Filter(sorted, NonZero);
    var r := DedupBy(nonzero, DayOf);
    TopPerDaySorted(recs, sorted, nonzero, r);
    TopPerDayMembers(recs, sorted, nonzero, r);
    r
  }

  /** No non-zero entry is lost: the row kept for its day is at least as
      large. */
  lemma TopPerDayCoversDays(recs: seq<StressDay>, r: seq<StressDay>)
    requires r == TopPerDay(recs)
    ensures forall x :: x in recs && x.value != 0.0 ==>
              exists i :: 0 <= i < |r| && r[i].day == x.day && r[i].value >= x.value
  {
    var sorted := SortDesc(recs, ValueOf);
    var nonzero := Filter(sorted, NonZero);
    TopPerDaySorted(recs, sorted, nonzero, r);
    TopPerDayCoversAll(recs, sorted, nonzero, r);
  }

  predicate NonZero(x: StressDay) { x.value != 0.0 }

  lemma TopPerDaySorted(recs: seq<StressDay>, sorted: seq<StressDay>, nonzero: seq<StressDay>,
                        r: seq<StressDay>)
    requires sorted == SortDesc(recs, ValueOf)
    requires nonzero == Filter(sorted, NonZero)
    requires r == DedupBy(nonzero, DayOf)
    ensures SortedDesc(nonzero, ValueOf) && SortedDesc(r, ValueOf)
  {
    SubseqSorted(nonzero, sorted, ValueOf);
    SubseqSorted(r, nonzero, ValueOf);
  }

  lemma TopPerDayCoversAll(recs: seq<StressDay>, sorted: seq<StressDay>, nonzero: seq<StressDay>,
                           r: seq<StressDay>)
    requires sorted == SortDesc(recs, ValueOf)
    requires nonzero == Filter(sorted, NonZero)
    requires r == DedupBy(nonzero, DayOf)
    requires SortedDesc(nonzero, ValueOf)
    ensures forall x :: x in recs && x.value != 0.0 ==>
              exists i :: 0 <= i < |r| && r[i].day == x.day && r[i].value >= x.value
  {
    forall x | x in recs && x.value != 0.0
      ensures exists i :: 0 <= i < |r| && r[i].day == x.day && r[i].value >= x.value
    {
      TopPerDayCovers(recs, sorted, nonzero, r, x);
    }
  }

  lemma TopPerDayMembers(recs: seq<StressDay>, sorted: seq<StressDay>, nonzero: seq<StressDay>,
                         r: seq<StressDay>)
    requires sorted == SortDesc(recs, ValueOf)
    requires nonzero == Filter(sorted, NonZero)
    requires r == DedupBy(nonzero, DayOf)
    ensures forall i :: 0 <= i < |r| ==> r[i].value != 0.0 && r[i] in recs
  {
    SubseqMembers(r, nonzero);
    SubseqMembers(nonzero, sorted);
    NonZeroMembers(recs, sorted, nonzero, r);
  }

  lemma NonZeroMembers(recs: seq<StressDay>, sorted: seq<StressDay>, nonzero: seq<StressDay>,
                       r: seq<StressDay>)
    requires multiset(sorted) == multiset(recs)
    requires forall x :: x in nonzero ==> x in sorted
    requires forall x :: x in r ==> x in nonzero
    requires forall i :: 0 <= i < |nonzero| ==> NonZero(nonzero[i])
    ensures forall i :: 0 <= i < |r| ==> r[i].value != 0.0 && r[i] in recs
  {
    forall i | 0 <= i < |r| ensures r[i].value != 0.0 && r[i] in recs {
      assert r[i] in r;
      var j :| 0 <= j < |nonzero| && nonzero[j] == r[i];
      assert NonZero(nonzero[j]);
      assert r[i] in multiset(sorted);
    }
  }

  lemma TopPerDayCovers(recs: seq<StressDay>, sorted: seq<StressDay>, nonzero: seq<StressDay>,
                        r: seq<StressDay>, x: StressDay)
    requires sorted == SortDesc(recs, ValueOf)
    requires nonzero == Filter(sorted, NonZero)
    requires r == DedupBy(nonzero, DayOf)
    requires SortedDesc(nonzero, ValueOf)
    requires x in recs && x.value != 0.0
    ensures exists i :: 0 <= i < |r| && r[i].day == x.day && r[i].value >= x.value
  {
    NonZeroKept(recs, sorted, nonzero, x);
    KeptDayCovers(nonzero, r, x);
  }

  lemma NonZeroKept(recs: seq<StressDay>, sorted: seq<StressDay>, nonzero: seq<StressDay>, x: StressDay)
    requires sorted == SortDesc(recs, ValueOf)
    requires nonzero == Filter(sorted, NonZero)
    requires x in recs && x.value != 0.0
    ensures x in nonzero
  {
    assert x in multiset(sorted);
    var j :| 0 <= j < |sorted| && sorted[j] == x;
    assert NonZero(sorted[j]);
  }

  lemma KeptDayCovers(nonzero: seq<StressDay>, r: seq<StressDay>, x: StressDay)
    requires r == DedupBy(nonzero, DayOf)
    requires SortedDesc(nonzero, ValueOf)
    requires x in nonzero
    ensures exists i :: 0 <= i < |r| && r[i].day == x.day && r[i].value >= x.value
  {
    FirstIsLargest(nonzero, DayOf, ValueOf, x);
    assert DayOf(x) in KeySet(r, DayOf);
    var i :| 0 <= i < |r| && DayOf(r[i]) == DayOf(x);
    assert r[i] == First(nonzero, DayOf, DayOf(x));
  }

  /** The metric as the source tests it: upper-cased, EUE or NEUE; any other
      text leaves the period table unassigned. */
  function ParseMetric(metricText: string): (r: Result<Metric>)
    ensures r.Ok? <==> Upper(metricText) == "EUE" || Upper(metricText) == "NEUE"
    ensures r.Ok? ==> (r.value == EUE <==> Upper(metricText) == "EUE")
  {
    if Upper(metricText) == "EUE" then Ok(EUE)
    else if Upper(metricText) == "NEUE" then Ok(NEUE)
    else Err(UnboundLocalError("dfmetric_period"))
  }

  /** The aggregation, verbatim: for EUE another text is handed to pandas,
      for NEUE it leaves the period table unassigned. */
  function ParseAgg(aggText: string, metric: Metric): (r: Result<Agg>)
    ensures r.Ok? <==> aggText == "sum" || aggText == "max"
    ensures r.Ok? ==> (r.value == SumAgg <==> aggText == "sum")
    ensures r.Err? ==> (r.error.ValueError? <==> metric == EUE)
  {
    if aggText == "sum" then Ok(SumAgg)
    else if aggText == "max" then Ok(MaxAgg)
    else if metric == EUE then Err(ValueError(aggText))
    else Err(UnboundLocalError("dfmetric_period"))
  }

  /** The load columns the metric divides by: the rolled-up load for NEUE,
      unused (the EUE columns themselves) for EUE. */
  function LoadColumns(load: Frame, eR: Frame, rename: string -> string, n: nat, metric: Metric): Frame
    requires metric == NEUE ==> Rect(load, n)
  {
    if metric == NEUE then RollUp(load, rename, n) else eR
  }

  /** Whether `dfload.index = dfeue.index` (line 152) can relabel the load
      with a time index of `n` hours: the load has as many rows. A table of
      no columns is taken to fit. */
  function LoadFits(load: Frame, n: nat): bool
  {
    |load| == 0 || |load[0].values| == n
  }

  /** pandas' message for an index of the wrong length. */
  function LengthMismatch(expected: nat, given: nat): string
  {
    "Length mismatch: Expected axis has " + NatToString(expected)
      + " elements, new values have " + NatToString(given) + " elements"
  }

  /** What the stress table needs of its inputs: the EUE table covers the
      time index. The load is read only under NEUE, and there, once its
      length fits the index, it has the EUE table's regions and positive
      values. */
  ghost predicate StressInputs(eue: Frame, load: Frame, times: seq<Date>, metricText: string)
  {
    && Rect(eue, |times|)
    && (Upper(metricText) == "NEUE" && LoadFits(load, |times|) ==>
          && Rect(load, |times|) && Names(eue) == Names(load)
          && forall k :: 0 <= k < |load| ==> Positive(load[k].values))
  }

  /** `get_stress_periods`: the region columns rolled up to the level, the
      metric of every (day, column), and the largest non-zero entry of each
      day. Under NEUE a load of another length than the index is pandas'
      ValueError, raised before the aggregation is looked at. */
  function StressPeriods(h: Hierarchy, eue: Frame, load: Frame, times: seq<Date>,
                         level: string, metricText: string, aggText: string,
                         periodOf: Date -> string): (r: Result<seq<StressDay>>)
    requires StressInputs(eue, load, times, metricText)
    ensures r.Ok? <==> && RegionMap(h, level).Ok? && ParseMetric(metricText).Ok?
                       && (ParseMetric(metricText).value == NEUE ==> LoadFits(load, |times|))
                       && ParseAgg(aggText, ParseMetric(metricText).value).Ok?
    ensures RegionMap(h, level).Ok? && Upper(metricText) == "NEUE" && !LoadFits(load, |times|) ==>
              r == Err(ValueError(LengthMismatch(|load[0].values|, |times|)))
    ensures r.Ok? ==> KeysUnique(r.value, DayOf)
                      && SortedDesc(r.value, ValueOf)
    ensures !(level == "r" || level in h.columns) ==> r == Err(KeyError(level))
  {
    var rmap :- RegionMap(h, level);
    var rename := Renamer(rmap);
    var eR := RollUp(eue, rename, |times|);
    var metric :- ParseMetric(metricText);
    if metric == NEUE && !LoadFits(load, |times|) then
      Err(ValueError(LengthMismatch(|load[0].values|, |times|)))
    else
      var agg :- ParseAgg(aggText, metric);
      var lR := LoadColumns(load, eR, rename, |times|, metric);
      assert Rolled(eR, lR, times, metric) by {
        RolledPositive(load, rename, |times|, metric);
        if metric == NEUE {
          RolledAligned(eue, load, rename, |times|);
        }
      }
      var days := DedupBy(times, Id);
      DaysInTimes(times);
      Ok(TopPerDay(Stack(eR, lR, times, metric, agg, periodOf, days)))
  }

  /** Under EUE the load is never read: any two load tables give the same
      stress table. */
  lemma StressPeriodsIgnoresLoad(h: Hierarchy, eue: Frame, load1: Frame, load2: Frame, times: seq<Date>,
                                 level: string, metricText: string, aggText: string,
                                 periodOf: Date -> string)
    requires Rect(eue, |times|) && Upper(metricText) != "NEUE"
    ensures StressPeriods(h, eue, load1, times, level, metricText, aggText, periodOf)
            == StressPeriods(h, eue, load2, times, level, metricText, aggText, periodOf)
  {
    if RegionMap(h, level).Ok? && ParseMetric(metricText).Ok? && ParseAgg(aggText, ParseMetric(metricText).value).Ok? {
      var eR := RollUp(eue, Renamer(RegionMap(h, level).value), |times|);
      assert ParseMetric(metricText) == Ok(EUE);
      assert LoadColumns(load1, eR, Renamer(RegionMap(h, level).value), |times|, EUE) == eR;
      assert LoadColumns(load2, eR, Renamer(RegionMap(h, level).value), |times|, EUE) == eR;
    }
  }

  /** `x` is the entry of one rolled-up column on one day of the index: its
      value is `DailyValue` of that column on that day. */
  ghost predicate IsEntry(eR: Frame, lR: Frame, times: seq<Date>, metric: Metric, agg: Agg,
                          periodOf: Date -> string, x: StressDay)
  {
    && Rolled(eR, lR, times, metric)
    && x.day in times
    && exists k :: 0 <= k < |eR| && x == Entry(eR, lR, times, metric, agg, periodOf, k, x.day)
  }

  /** The rows of the stress table against the daily metric: every row is
      the non-zero entry of one rolled-up region column on its day, and every
      non-zero entry is matched or exceeded by the row kept for its day. */
  lemma StressPeriodsRows(h: Hierarchy, eue: Frame, load: Frame, times: seq<Date>,
                          level: string, metricText: string, aggText: string,
                          periodOf: Date -> string, metric: Metric, agg: Agg,
                          eR: Frame, lR: Frame, r: seq<StressDay>)
    requires StressInputs(eue, load, times, metricText)
    requires RegionMap(h, level).Ok?
    requires ParseMetric(metricText) == Ok(metric) && ParseAgg(aggText, metric) == Ok(agg)
    requires metric == NEUE ==> LoadFits(load, |times|)
    requires eR == RollUp(eue, Renamer(RegionMap(h, level).value), |times|)
    requires lR == LoadColumns(load, eR, Renamer(RegionMap(h, level).value), |times|, metric)
    requires StressPeriods(h, eue, load, times, level, metricText, aggText, periodOf) == Ok(r)
    ensures forall i :: 0 <= i < |r| ==> IsEntry(eR, lR, times, metric, agg, periodOf, r[i]) && r[i].value != 0.0
    ensures forall x :: IsEntry(eR, lR, times, metric, agg, periodOf, x) && x.value != 0.0 ==>
              exists i :: 0 <= i < |r| && r[i].day == x.day && r[i].value >= x.value
  {
    var days := DedupBy(times, Id);
    forall d | d in times ensures d in days {
      DayKept(times, d);
    }
    StressPeriodsTable(h, eue, load, times, level, metricText, aggText, periodOf, metric, agg);
    StackIsEntries(eR, lR, times, metric, agg, periodOf, days);
    TableOfDays(eR, lR, times, metric, agg, periodOf, Stack(eR, lR, times, metric, agg, periodOf, days), r);
  }

  /** The kept rows of the stacked entries of the days of the index. */
  lemma TableOfDays(eR: Frame, lR: Frame, times: seq<Date>, metric: Metric, agg: Agg,
                    periodOf: Date -> string, recs: seq<StressDay>, r: seq<StressDay>)
    requires forall x :: x in recs <==> IsEntry(eR, lR, times, metric, agg, periodOf, x)
    requires r == TopPerDay(recs)
    ensures forall i :: 0 <= i < |r| ==> IsEntry(eR, lR, times, metric, agg, periodOf, r[i]) && r[i].value != 0.0
    ensures forall x :: IsEntry(eR, lR, times, metric, agg, periodOf, x) && x.value != 0.0 ==>
              exists i :: 0 <= i < |r| && r[i].day == x.day && r[i].value >= x.value
  {
    TopPerDayCoversDays(recs, r);
    TableRows(eR, lR, times, metric, agg, periodOf, recs, r);
  }

  lemma StackIsEntries(eR: Frame, lR: Frame, times: seq<Date>, metric: Metric, agg: Agg,
                       periodOf: Date -> string, days: seq<Date>)
    requires Rolled(eR, lR, times, metric)
    requires forall i :: 0 <= i < |days| ==> days[i] in times
    requires forall d :: d in times ==> d in days
    ensures forall x :: x in Stack(eR, lR, times, metric, agg, periodOf, days) <==> IsEntry(eR, lR, times, metric, agg, periodOf, x)
  {
    forall x ensures x in Stack(eR, lR, times, metric, agg, periodOf, days) <==> IsEntry(eR, lR, times, metric, agg, periodOf, x) {
      StackEntries(eR, lR, times, metric, agg, periodOf, days, x);
    }
  }

  lemma StressPeriodsTable(h: Hierarchy, eue: Frame, load: Frame, times: seq<Date>,
                           level: string, metricText: string, aggText: string,
                           periodOf: Date -> string, metric: Metric, agg: Agg)
    requires StressInputs(eue, load, times, metricText)
    requires RegionMap(h, level).Ok?
    requires ParseMetric(metricText) == Ok(metric) && ParseAgg(aggText, metric) == Ok(agg)
    requires metric == NEUE ==> LoadFits(load, |times|)
    ensures var rename := Renamer(RegionMap(h, level).value);
      var eR := RollUp(eue, rename, |times|);
      var lR := LoadColumns(load, eR, rename, |times|, metric);
      Rolled(eR, lR, times, metric)
      && (forall i :: 0 <= i < |DedupBy(times, Id)| ==> DedupBy(times, Id)[i] in times)
      && StressPeriods(h, eue, load, times, level, metricText, aggText, periodOf)
         == Ok(TopPerDay(Stack(eR, lR, times, metric, agg, periodOf, DedupBy(times, Id))))
  {
    var rename := Renamer(RegionMap(h, level).value);
    RolledPositive(load, rename, |times|, metric);
    if metric == NEUE {
      RolledAligned(eue, load, rename, |times|);
    }
    DaysInTimes(times);
  }

  /** The stacked table holds exactly the entries of the days of the index. */
  lemma StackEntries(eR: Frame, lR: Frame, times: seq<Date>, metric: Metric, agg: Agg,
                     periodOf: Date -> string, days: seq<Date>, x: StressDay)
    requires Rolled(eR, lR, times, metric)
    requires forall i :: 0 <= i < |days| ==> days[i] in times
    requires forall d :: d in times ==> d in days
    ensures x in Stack(eR, lR, times, metric, agg, periodOf, days) <==> IsEntry(eR, lR, times, metric, agg, periodOf, x)
  {
    var recs := Stack(eR, lR, times, metric, agg, periodOf, days);
    if x in recs {
      var j :| 0 <= j < |recs| && recs[j] == x;
      var q :| 0 <= q < |days| && days[q] == x.day;
    }
    if IsEntry(eR, lR, times, metric, agg, periodOf, x) {
      var k :| 0 <= k < |eR| && x == Entry(eR, lR, times, metric, agg, periodOf, k, x.day);
      assert x.day in days;
    }
  }

  /** The kept rows against the entries of every day. */
  lemma TableRows(eR: Frame, lR: Frame, times: seq<Date>, metric: Metric, agg: Agg,
                  periodOf: Date -> string, recs: seq<StressDay>, r: seq<StressDay>)
    requires forall x :: x in recs <==> IsEntry(eR, lR, times, metric, agg, periodOf, x)
    requires forall i :: 0 <= i < |r| ==> r[i].value != 0.0 && r[i] in recs
    requires forall x :: x in recs && x.value != 0.0 ==>
               exists i :: 0 <= i < |r| && r[i].day == x.day && r[i].value >= x.value
    ensures forall i :: 0 <= i < |r| ==> IsEntry(eR, lR, times, metric, agg, periodOf, r[i]) && r[i].value != 0.0
    ensures forall x :: IsEntry(eR, lR, times, metric, agg, periodOf, x) && x.value != 0.0 ==>
              exists i :: 0 <= i < |r| && r[i].day == x.day && r[i].value >= x.value
  {
  }

  /** Every day of the index survives the de-duplication of days. */
  lemma DayKept(times: seq<Date>, d: Date)
    requires d in times
    ensures d in DedupBy(times, Id)
  {
    DedupKeepsFirst(times, Id, d);
  }

  lemma DaysInTimes(times: seq<Date>)
    ensures forall i :: 0 <= i < |DedupBy(times, Id)| ==> DedupBy(times, Id)[i] in times
  {
    SubseqMembers(DedupBy(times, Id), times);
  }

  lemma RolledAligned(eue: Frame, load: Frame, rename: string -> string, n: nat)
    requires Rect(eue, n) && Rect(load, n) && Names(eue) == Names(load)
    ensures |RollUp(eue, rename, n)| == |RollUp(load, rename, n)|
    ensures Names(RollUp(eue, rename, n)) == Names(RollUp(load, rename, n))
  {
    assert Renamed(eue, rename) == Renamed(load, rename) by {
      assert forall k :: 0 <= k < |eue| ==> eue[k].name == Names(eue)[k] == Names(load)[k] == load[k].name;
    }
    assert |Names(RollUp(eue, rename, n))| == |Names(RollUp(load, rename, n))|;
  }

  /** Every rolled-up column sums at least one positive input column. */
  lemma RolledPositive(load: Frame, rename: string -> string, n: nat, metric: Metric)
    requires metric == NEUE ==> Rect(load, n) && forall k :: 0 <= k < |load| ==> Positive(load[k].values)
    ensures metric == NEUE ==> forall k :: 0 <= k < |RollUp(load, rename, n)| ==>
              Positive(RollUp(load, rename, n)[k].values)
  {
    if metric == NEUE {
      var r := RollUp(load, rename, n);
      forall k, h | 0 <= k < |r| && 0 <= h < n
        ensures r[k].values[h] > 0.0
      {
        assert Names(r)[k] in DedupBy(Renamed(load, rename), Id);
        KeySetId(DedupBy(Renamed(load, rename), Id), r[k].name);
        KeySetId(Renamed(load, rename), r[k].name);
        GroupTotalPositive(load, rename, r[k].name, h);
      }
    }
  }

  lemma {:induction false} GroupTotalPositive(f: Frame, rename: string -> string, g: string, h: nat)
    requires forall k :: 0 <= k < |f| ==> h < |f[k].values| && f[k].values[h] > 0.0
    requires g in Renamed(f, rename)
    ensures GroupTotal(f, rename, g, h) > 0.0
    decreases |f|
  {
    var n := |f| - 1;
    RenamedSnoc(f, rename);
    if g in Renamed(f[..n], rename) {
      GroupTotalPositive(f[..n], rename, g, h);
    } else {
      GroupTotalAbsent(f[..n], rename, g, h);
    }
  }
}
