/** Hourly load profiles by model year (input_processing/hourly_load.py
    64-319): a historical profile scaled to an annual total, linear
    interpolation of the model years the projections skip, calibration to
    historical annual loads, and historical years prepended to the
    projections. */
module HourlyLoad {
  import opened Wrappers
  import opened Text
  import opened Frames

  /** One entry of the hourly time index: the (weather) year of the
      timestamp and the hour within that year. */
  datatype Stamp = Stamp(weather: int, hour: nat)

  /** An hourly table: the time index and one column per state or region. */
  datatype Table = Table(stamps: seq<Stamp>, frame: Frame)

  /** The rows of a multi-year table that belong to one model year. */
  datatype Profile = Profile(year: int, table: Table)

  /** A row of the annual historical loads: state, year and MWh. */
  datatype AnnualLoad = AnnualLoad(st: string, year: int, mwh: real)

  ghost predicate Shaped(t: Table)
  {
    Rect(t.frame, |t.stamps|)
  }

  /** Same time index and same columns. pandas aligns two such tables by
      label; the model aligns them by position. */
  ghost predicate SameShape(a: Table, b: Table)
  {
    Shaped(a) && Shaped(b) && a.stamps == b.stamps && Names(a.frame) == Names(b.frame)
  }

  lemma SameShapeTrans(a: Table, b: Table, c: Table)
    requires SameShape(a, b) && SameShape(a, c)
    ensures SameShape(b, c)
  {
  }

  function YearsOf(load: seq<Profile>): (r: seq<int>)
    ensures |r| == |load|
    ensures forall i :: 0 <= i < |load| ==> r[i] == load[i].year
  {
    seq(|load|, i requires 0 <= i < |load| => load[i].year)
  }

  /** Every model year's block has the first block's index and columns,
      and no model year appears twice. */
  ghost predicate Uniform(load: seq<Profile>)
  {
    && (forall i :: 0 <= i < |load| ==> SameShape(load[0].table, load[i].table))
    && (forall i, j :: 0 <= i < j < |load| ==> load[i].year != load[j].year)
  }

  /** `.loc[year]` on the model-year level. */
  function Find(load: seq<Profile>, y: int): (r: Option<Table>)
    ensures r.Some? <==> y in YearsOf(load)
    ensures r.Some? ==> exists i :: 0 <= i < |load| && load[i] == Profile(y, r.value)
  {
    FindFrom(load, y, 0)
  }

  function FindFrom(load: seq<Profile>, y: int, i: nat): (r: Option<Table>)
    requires i <= |load|
    ensures r.Some? <==> exists j :: i <= j < |load| && load[j].year == y
    ensures r.Some? ==> exists j :: i <= j < |load| && load[j] == Profile(y, r.value)
    decreases |load| - i
  {
    if i == |load| then None
    else if load[i].year == y then Some(load[i].table)
    else FindFrom(load, y, i + 1)
  }

  lemma FindUniform(load: seq<Profile>, a: int, b: int)
    requires Uniform(load)
    requires a in YearsOf(load) && b in YearsOf(load)
    ensures SameShape(Find(load, a).value, Find(load, b).value)
  {
    var i :| 0 <= i < |load| && load[i] == Profile(a, Find(load, a).value);
    var j :| 0 <= j < |load| && load[j] == Profile(b, Find(load, b).value);
    SameShapeTrans(load[0].table, load[i].table, load[j].table);
  }

  function Least(s: seq<int>): (m: int)
    requires |s| > 0
    ensures m in s
    ensures forall i :: 0 <= i < |s| ==> m <= s[i]
    decreases |s|
  {
    if |s| == 1 then s[0]
    else
      var m' := Least(s[..|s| - 1]);
      assert forall i :: 0 <= i < |s| - 1 ==> s[..|s| - 1][i] == s[i];
      if s[|s| - 1] < m' then s[|s| - 1] else m'
  }

  function Greatest(s: seq<int>): (m: int)
    requires |s| > 0
    ensures m in s
    ensures forall i :: 0 <= i < |s| ==> s[i] <= m
    decreases |s|
  {
    if |s| == 1 then s[0]
    else
      var m' := Greatest(s[..|s| - 1]);
      assert forall i :: 0 <= i < |s| - 1 ==> s[..|s| - 1][i] == s[i];
      if s[|s| - 1] > m' then s[|s| - 1] else m'
  }

  function AnnualYears(annual: seq<AnnualLoad>): (r: seq<int>)
    ensures |r| == |annual|
    ensures forall i :: 0 <= i < |annual| ==> r[i] == annual[i].year
  {
    seq(|annual|, i requires 0 <= i < |annual| => annual[i].year)
  }

  /** An integer label as pandas prints it in a KeyError. */
  function YearKey(y: int): string
  {
    if y < 0 then "-" + NatToString(-y) else NatToString(y)
  }

  /** The message of `range()` given the NaN `min()`/`max()` of an empty column. */
  const RangeOfNaN := "'float' object cannot be interpreted as an integer"

  /** The message of `pd.concat` given no tables. */
  const NothingToConcat := "No objects to concatenate"

  // ---------------------------------------------------------------------------
  // Weather-year totals and proportional scaling
  // ---------------------------------------------------------------------------

  /** `groupby(datetime.year).transform('sum')` at any hour of weather year
      `w`: the column's total over the hours of that weather year. */
  function WeatherTotal(values: seq<real>, stamps: seq<Stamp>, w: int): real
    requires |values| == |stamps|
    decreases |values|
  {
    if |values| == 0 then 0.0
    else
      var n := |values| - 1;
      WeatherTotal(values[..n], stamps[..n], w) + (if stamps[n].weather == w then values[n] else 0.0)
  }

  /** Multiplying every hour of weather year `w` by `k` multiplies its total by `k`. */
  lemma {:induction false} WeatherTotalScaled(values: seq<real>, scaled: seq<real>, stamps: seq<Stamp>,
                                              w: int, k: real)
    requires |values| == |stamps| == |scaled|
    requires forall h :: 0 <= h < |stamps| && stamps[h].weather == w ==> scaled[h] == values[h] * k
    ensures WeatherTotal(scaled, stamps, w) == WeatherTotal(values, stamps, w) * k
    decreases |values|
  {
    if |values| > 0 {
      var n := |values| - 1;
      WeatherTotalScaled(values[..n], scaled[..n], stamps[..n], w, k);
      var before := WeatherTotal(values[..n], stamps[..n], w);
      var last := if stamps[n].weather == w then values[n] else 0.0;
      assert (if stamps[n].weather == w then scaled[n] else 0.0) == last * k;
      assert (before + last) * k == before * k + last * k;
    }
  }

  /** Column `k`'s total over weather year `w` (zero for a column the table
      does not have). */
  function Total(t: Table, k: nat, w: int): real
  {
    if k < |t.frame| && |t.frame[k].values| == |t.stamps| then WeatherTotal(t.frame[k].values, t.stamps, w) else 0.0
  }

  function NameAt(t: Table, k: nat): string
  {
    if k < |t.frame| then t.frame[k].name else ""
  }

  /** The source divides every hour by its weather-year total: none of them
      is zero. */
  ghost predicate Divisible(t: Table)
  {
    Shaped(t)
    && forall k, h :: 0 <= k < |t.frame| && 0 <= h < |t.stamps| ==> Total(t, k, t.stamps[h].weather) != 0.0
  }

  /** Column `k` scaled hour by hour by its goal over its weather-year total. */
  function RescaleColumn(t: Table, k: nat, goal: (nat, int) -> real): (r: Column)
    requires Divisible(t) && k < |t.frame|
    ensures r.name == t.frame[k].name && |r.values| == |t.stamps|
    ensures forall h :: 0 <= h < |t.stamps| ==> r.values[h] == t.frame[k].values[h] * (goal(k, t.stamps[h].weather) / Total(t, k, t.stamps[h].weather))
  {
    var c := t.frame[k];
    Column(c.name, seq(|t.stamps|, h requires 0 <= h < |t.stamps| =>
      c.values[h] * (goal(k, t.stamps[h].weather) / Total(t, k, t.stamps[h].weather))))
  }

  /** The table scaled so that every column's total over every weather year
      is the goal for that column and year. */
  function Rescale(t: Table, goal: (nat, int) -> real): (r: Table)
    requires Divisible(t)
    ensures SameShape(t, r)
    ensures forall k, h :: 0 <= k < |r.frame| && 0 <= h < |r.stamps| ==>
              Total(r, k, r.stamps[h].weather) == goal(k, r.stamps[h].weather)
  {
    var r := Table(t.stamps, seq(|t.frame|, k requires 0 <= k < |t.frame| => RescaleColumn(t, k, goal)));
    assert Names(r.frame) == Names(t.frame);
    RescaleTotals(t, goal, r);
    r
  }

  lemma RescaleTotals(t: Table, goal: (nat, int) -> real, r: Table)
    requires Divisible(t)
    requires r == Table(t.stamps, seq(|t.frame|, k requires 0 <= k < |t.frame| => RescaleColumn(t, k, goal)))
    ensures forall k, h :: 0 <= k < |r.frame| && 0 <= h < |r.stamps| ==>
              Total(r, k, r.stamps[h].weather) == goal(k, r.stamps[h].weather)
  {
    forall k, h | 0 <= k < |r.frame| && 0 <= h < |r.stamps|
      ensures Total(r, k, r.stamps[h].weather) == goal(k, r.stamps[h].weather)
    {
      assert r.frame[k] == RescaleColumn(t, k, goal);
      RescaleColumnTotal(t, goal, k, h);
    }
  }

  lemma RescaleColumnTotal(t: Table, goal: (nat, int) -> real, k: nat, h: nat)
    requires Divisible(t) && k < |t.frame| && h < |t.stamps|
    ensures WeatherTotal(RescaleColumn(t, k, goal).values, t.stamps, t.stamps[h].weather) == goal(k, t.stamps[h].weather)
  {
    var w := t.stamps[h].weather;
    var total := Total(t, k, w);
    var g := goal(k, w);
    var c := RescaleColumn(t, k, goal);
    WeatherTotalScaled(t.frame[k].values, c.values, t.stamps, w, g / total);
    assert total != 0.0;
    assert total * (g / total) == g;
  }

  /** Scaling keeps the shape of the profile: every hour's share of its
      weather-year total is unchanged, wherever the goal is not zero. */
  lemma RescaleKeepsShares(t: Table, goal: (nat, int) -> real, k: nat, h: nat)
    requires Divisible(t) && k < |t.frame| && h < |t.stamps|
    requires goal(k, t.stamps[h].weather) != 0.0
    ensures Rescale(t, goal).frame[k].values[h] / Total(Rescale(t, goal), k, t.stamps[h].weather)
            == t.frame[k].values[h] / Total(t, k, t.stamps[h].weather)
  {
    var w := t.stamps[h].weather;
    var g := goal(k, w);
    var total := Total(t, k, w);
    var v := t.frame[k].values[h];
    assert Rescale(t, goal).frame[k].values[h] == v * (g / total);
    assert Total(Rescale(t, goal), k, w) == g;
    assert v * (g / total) / g == v / total;
  }

  // ---------------------------------------------------------------------------
  // Historical annual loads and scale (lines 64-102)
  // ---------------------------------------------------------------------------

  /** `get_historical_state_load_for_model_year(annual, y)[st]`: the MWh of
      the first row for that state and year. */
  function Historical(annual: seq<AnnualLoad>, y: int, st: string): (r: Option<real>)
    ensures r.Some? <==> exists i :: 0 <= i < |annual| && annual[i].year == y && annual[i].st == st
    ensures r.Some? ==> exists i :: 0 <= i < |annual| && annual[i] == AnnualLoad(st, y, r.value)
    decreases |annual|
  {
    if |annual| == 0 then None
    else if annual[0].year == y && annual[0].st == st then Some(annual[0].mwh)
    else
      var r := Historical(annual[1..], y, st);
      assert forall i :: 0 <= i < |annual| - 1 ==> annual[1..][i] == annual[i + 1];
      assert forall i :: 1 <= i < |annual| ==> annual[i] == annual[1..][i - 1];
      r
  }

  /** The historical value, or zero where there is none; it is only used
      where every column has one. */
  function HistoricalOr0(annual: seq<AnnualLoad>, y: int, st: string): real
  {
    match Historical(annual, y, st)
    case Some(v) => v
    case None => 0.0
  }

  /** Every column of `t` has a historical load for year `y`; otherwise
      pandas would align the Series and leave NaN. */
  ghost predicate Covers(annual: seq<AnnualLoad>, y: int, t: Table)
  {
    forall k :: 0 <= k < |t.frame| ==> Historical(annual, y, t.frame[k].name).Some?
  }

  function HistoricalGoal(annual: seq<AnnualLoad>, y: int, t: Table): (nat, int) -> real
  {
    (k: nat, w: int) => HistoricalOr0(annual, y, NameAt(t, k))
  }

  /** `scale_historical_hourly_state_load_to_model_year`: every weather year
      of every state's profile then totals that state's historical load of
      model year `y`. */
  function Scale(hourly: Table, annual: seq<AnnualLoad>, y: int): (r: Table)
    requires Divisible(hourly) && Covers(annual, y, hourly)
    ensures SameShape(hourly, r)
    ensures MatchesHistory(annual, y, r)
  {
    var r := Rescale(hourly, HistoricalGoal(annual, y, hourly));
    assert forall k :: 0 <= k < |r.frame| ==> r.frame[k].name == hourly.frame[k].name by {
      assert Names(r.frame) == Names(hourly.frame);
    }
    r
  }

  // ---------------------------------------------------------------------------
  // interpolate_missing_model_years (lines 104-154)
  // ---------------------------------------------------------------------------

  ghost predicate Increasing(s: seq<int>)
  {
    forall i, j :: 0 <= i < j < |s| ==> s[i] < s[j]
  }

  /** The years `lo..hi` that are in `years`, ascending. */
  function Known(years: seq<int>, lo: int, hi: int): (r: seq<int>)
    ensures Increasing(r)
    ensures forall i :: 0 <= i < |r| ==> lo <= r[i] <= hi && r[i] in years
    decreases hi - lo
  {
    if lo > hi then []
    else (if lo in years then [lo] else []) + Known(years, lo + 1, hi)
  }

  /** No year of the range is missed. */
  lemma {:induction false} KnownHas(years: seq<int>, lo: int, hi: int, y: int)
    requires lo <= y <= hi && y in years
    ensures y in Known(years, lo, hi)
    decreases hi - lo
  {
    if y > lo {
      KnownHas(years, lo + 1, hi, y);
    }
  }

  /** `y1 + (y2 - y1) / (x2 - x1) * (x - x1)`. */
  function Lerp(a: real, b: real, x1: int, x2: int, x: int): real
    requires x1 < x2
  {
    a + (b - a) / (x2 - x1) as real * (x - x1) as real
  }

  /** Between its two end years the line stays between their values. */
  lemma LerpBetween(a: real, b: real, x1: int, x2: int, x: int)
    requires x1 <= x <= x2 && x1 < x2
    ensures a <= b ==> a <= Lerp(a, b, x1, x2, x) <= b
    ensures b <= a ==> b <= Lerp(a, b, x1, x2, x) <= a
  {
    var d := (x2 - x1) as real;
    var t := (x - x1) as real;
    assert 0.0 <= t <= d;
    var step := (b - a) / d;
    assert Lerp(a, b, x1, x2, x) == a + step * t;
    assert step * d == b - a;
    if a <= b {
      assert 0.0 <= step;
      assert step * t <= step * d;
    } else {
      assert step <= 0.0;
      assert step * d <= step * t;
    }
  }

  function LerpColumn(a: Column, b: Column, x1: int, x2: int, x: int): (r: Column)
    requires |a.values| == |b.values| && x1 < x2
    ensures r.name == a.name && |r.values| == |a.values|
    ensures forall h :: 0 <= h < |a.values| ==> r.values[h] == Lerp(a.values[h], b.values[h], x1, x2, x)
  {
    Column(a.name, seq(|a.values|, h requires 0 <= h < |a.values| => Lerp(a.values[h], b.values[h], x1, x2, x)))
  }

  /** `df_load_beg + (df_load_end - df_load_beg) / (x2 - x1) * (x - x1)`. */
  function LerpTable(beg: Table, end: Table, x1: int, x2: int, x: int): (r: Table)
    requires SameShape(beg, end) && x1 < x2
    ensures SameShape(beg, r)
  {
    var r := Table(beg.stamps, seq(|beg.frame|, k requires 0 <= k < |beg.frame| =>
      LerpColumn(beg.frame[k], end.frame[k], x1, x2, x)));
    assert Names(r.frame) == Names(beg.frame);
    r
  }

  /** Column `k` of the line is the line through the two columns `k`. */
  lemma LerpTableAt(beg: Table, end: Table, x1: int, x2: int, x: int, k: nat)
    requires SameShape(beg, end) && x1 < x2 && k < |beg.frame|
    ensures k < |LerpTable(beg, end, x1, x2, x).frame|
    ensures LerpTable(beg, end, x1, x2, x).frame[k] == LerpColumn(beg.frame[k], end.frame[k], x1, x2, x)
  {
  }

  lemma LerpAtStart(beg: Table, end: Table, x1: int, x2: int)
    requires SameShape(beg, end) && x1 < x2
    ensures LerpTable(beg, end, x1, x2, x1) == beg
  {
    var r := LerpTable(beg, end, x1, x2, x1);
    forall k | 0 <= k < |r.frame| ensures r.frame[k] == beg.frame[k] {
      LerpTableAt(beg, end, x1, x2, x1, k);
      assert r.frame[k].values == beg.frame[k].values;
    }
  }

  lemma LerpAtEnd(beg: Table, end: Table, x1: int, x2: int)
    requires SameShape(beg, end) && x1 < x2
    ensures LerpTable(beg, end, x1, x2, x2) == end
  {
    var r := LerpTable(beg, end, x1, x2, x2);
    forall k | 0 <= k < |r.frame| ensures r.frame[k] == end.frame[k] {
      LerpTableAt(beg, end, x1, x2, x2, k);
      assert r.frame[k].name == end.frame[k].name by {
        assert Names(beg.frame)[k] == Names(end.frame)[k];
      }
      forall h | 0 <= h < |r.frame[k].values| ensures r.frame[k].values[h] == end.frame[k].values[h] {
        var a := beg.frame[k].values[h];
        var b := end.frame[k].values[h];
        assert (b - a) / (x2 - x1) as real * (x2 - x1) as real == b - a;
      }
    }
  }

  /** `i` is the position of the end year of the section of `y`: the pair
      at `i - 1` and `i` has `y` from the first up to the second, or `i`
      is the last position and `y` is past the one before it. */
  ghost predicate SectionIndex(known: seq<int>, y: int, i: nat)
  {
    1 <= i < |known| && known[i - 1] <= y && (y < known[i] || i == |known| - 1)
  }

  lemma {:induction false} SectionExists(known: seq<int>, y: int, i: nat)
    requires |known| >= 2 && Increasing(known) && known[0] <= y
    requires 1 <= i < |known| && (y < known[i] || i == |known| - 1)
    ensures exists j :: SectionIndex(known, y, j)
  {
    if known[i - 1] <= y {
      assert SectionIndex(known, y, i);
    } else {
      SectionExists(known, y, i - 1);
    }
  }

  /** Two positions that both end the section of `y` are the same. */
  lemma SectionIndexUnique(known: seq<int>, y: int, i: nat, j: nat)
    requires Increasing(known) && SectionIndex(known, y, i) && SectionIndex(known, y, j)
    ensures i == j
  {
    SectionIndexBelow(known, y, i, j);
    SectionIndexBelow(known, y, j, i);
  }

  lemma SectionIndexBelow(known: seq<int>, y: int, i: nat, j: nat)
    requires Increasing(known) && SectionIndex(known, y, i) && SectionIndex(known, y, j)
    ensures i <= j
  {
    if j < |known| - 1 {
      IncreasingOrder(known, i - 1, j);
    }
  }

  /** The position of the end year of the section of `y`. */
  ghost function SectionEnd(known: seq<int>, y: int): (i: nat)
    requires |known| >= 2 && Increasing(known) && known[0] <= y
    ensures SectionIndex(known, y, i)
  {
    SectionExists(known, y, |known| - 1);
    var i :| SectionIndex(known, y, i);
    i
  }

  /** The two known years whose line gives year `y`: the consecutive pair
      around it, or the last two known years once `y` reaches the last. */
  ghost function Section(known: seq<int>, y: int): (r: (int, int))
    requires |known| >= 2 && Increasing(known) && known[0] <= y
    ensures y < known[|known| - 1] ==> r.0 <= y < r.1
    ensures y >= known[|known| - 1] ==> r == (known[|known| - 2], known[|known| - 1])
  {
    var i := SectionEnd(known, y);
    IncreasingLe(known, i, |known| - 1);
    (known[i - 1], known[i])
  }

  /** Consecutive known years pin the section down. */
  lemma SectionAt(known: seq<int>, y: int, i: nat)
    requires |known| >= 2 && Increasing(known) && known[0] <= y
    requires 1 <= i < |known| && known[i - 1] <= y < known[i]
    ensures Section(known, y) == (known[i - 1], known[i])
  {
    SectionIndexUnique(known, y, i, SectionEnd(known, y));
  }

  lemma IncreasingLe(s: seq<int>, a: nat, b: nat)
    requires Increasing(s) && a <= b < |s|
    ensures s[a] <= s[b]
  {
  }

  /** In an increasing sequence a smaller value sits strictly earlier. */
  lemma IncreasingOrder(s: seq<int>, a: nat, b: nat)
    requires Increasing(s) && a < |s| && b < |s| && s[a] < s[b]
    ensures a < b
  {
  }

  /** The known years of the load up to `endyear`, from its first year. */
  function KnownOf(load: seq<Profile>, endyear: int): (r: seq<int>)
    requires |load| > 0
    ensures Increasing(r)
    ensures forall i :: 0 <= i < |r| ==> r[i] in YearsOf(load) && r[i] <= endyear
    ensures Least(YearsOf(load)) <= endyear ==> |r| > 0 && r[0] == Least(YearsOf(load))
  {
    var first := Least(YearsOf(load));
    var r := Known(YearsOf(load), first, endyear);
    if first <= endyear then
      KnownHas(YearsOf(load), first, endyear, first);
      var i :| 0 <= i < |r| && r[i] == first;
      IncreasingLe(r, 0, i);
      r
    else r
  }

  /** `known` can drive the interpolation of `load`: at least two
      ascending model years of the load, starting at its first. */
  ghost predicate KnownFor(load: seq<Profile>, known: seq<int>)
  {
    && |load| > 0 && Uniform(load)
    && |known| >= 2 && Increasing(known) && known[0] == Least(YearsOf(load))
    && forall i :: 0 <= i < |known| ==> known[i] in YearsOf(load)
  }

  /** The block the source computes for model year `y`: the line through
      the section's two known years, evaluated at `y`. */
  ghost function Expected(load: seq<Profile>, known: seq<int>, y: int): (r: Table)
    requires KnownFor(load, known) && known[0] <= y
  {
    var (x1, x2) := Section(known, y);
    BlockShape(load, x1);
    BlockShape(load, x2);
    LerpTable(BlockOf(load, x1), BlockOf(load, x2), x1, x2, y)
  }

  /** The block of model year `y`, picked by position; `Find` reaches the
      same block when no year repeats. */
  ghost function BlockOf(load: seq<Profile>, y: int): (t: Table)
    requires y in YearsOf(load)
  {
    var i :| 0 <= i < |load| && load[i].year == y;
    load[i].table
  }

  lemma BlockShape(load: seq<Profile>, y: int)
    requires |load| > 0 && Uniform(load) && y in YearsOf(load)
    ensures SameShape(load[0].table, BlockOf(load, y))
  {
  }

  lemma BlockOfFind(load: seq<Profile>, y: int)
    requires Uniform(load) && y in YearsOf(load)
    ensures Find(load, y).Some? && BlockOf(load, y) == Find(load, y).value
  {
    var j :| 0 <= j < |load| && load[j] == Profile(y, Find(load, y).value);
    var i :| 0 <= i < |load| && load[i].year == y && load[i].table == BlockOf(load, y);
    assert i == j;
  }

  /** The expected block is the line through the section's two blocks. */
  lemma ExpectedIs(load: seq<Profile>, known: seq<int>, y: int, x1: int, x2: int)
    requires KnownFor(load, known) && known[0] <= y
    requires (x1, x2) == Section(known, y)
    ensures x1 in YearsOf(load) && x2 in YearsOf(load) && x1 < x2
    ensures SameShape(Find(load, x1).value, Find(load, x2).value)
    ensures Expected(load, known, y) == LerpTable(Find(load, x1).value, Find(load, x2).value, x1, x2, y)
  {
    BlockOfFind(load, x1);
    BlockOfFind(load, x2);
    FindUniform(load, x1, x2);
  }

  /** A year the projections have is reproduced unchanged. */
  lemma {:induction false} KnownYearKept(load: seq<Profile>, known: seq<int>, y: int, j: nat)
    requires KnownFor(load, known) && j < |known| && known[j] == y
    ensures Expected(load, known, y) == Find(load, y).value
  {
    IncreasingLe(known, 0, j);
    var (x1, x2) := Section(known, y);
    KnownYearEndsSection(known, y, j);
    ExpectedIs(load, known, y, x1, x2);
    if y < known[|known| - 1] {
      LerpAtStart(Find(load, x1).value, Find(load, x2).value, x1, x2);
    } else {
      LerpAtEnd(Find(load, x1).value, Find(load, x2).value, x1, x2);
    }
  }

  /** A known year starts its own section, or ends the last one. */
  lemma KnownYearEndsSection(known: seq<int>, y: int, j: nat)
    requires |known| >= 2 && Increasing(known) && j < |known| && known[j] == y
    ensures known[0] <= y
    ensures y < known[|known| - 1] ==> Section(known, y).0 == y
    ensures y >= known[|known| - 1] ==> Section(known, y).1 == y
  {
    IncreasingLe(known, 0, j);
    var n := |known| - 1;
    var i := SectionEnd(known, y);
    if y < known[n] {
      IncreasingOrder(known, j, i);
      IncreasingLe(known, j, i - 1);
    } else {
      IncreasingLe(known, j, n);
    }
  }

  /** Every model year of the load from its first to `endyear` keeps its
      own block. */
  lemma InterpolateKeepsYear(load: seq<Profile>, endyear: int, y: int)
    requires |load| > 0 && Uniform(load) && |KnownOf(load, endyear)| >= 2
    requires Least(YearsOf(load)) <= y <= endyear && y in YearsOf(load)
    ensures Expected(load, KnownOf(load, endyear), y) == Find(load, y).value
  {
    var known := KnownOf(load, endyear);
    KnownHas(YearsOf(load), Least(YearsOf(load)), endyear, y);
    var j :| 0 <= j < |known| && known[j] == y;
    KnownYearKept(load, known, y, j);
  }

  /** A skipped year between two known years lies between their values,
      hour by hour and column by column. */
  lemma BetweenKnownYears(load: seq<Profile>, known: seq<int>, y: int, k: nat, h: nat)
    requires KnownFor(load, known) && known[0] <= y < known[|known| - 1]
    requires k < |Expected(load, known, y).frame| && h < |Expected(load, known, y).stamps|
    ensures var (x1, x2) := Section(known, y);
            var a := Find(load, x1).value.frame[k].values[h];
            var b := Find(load, x2).value.frame[k].values[h];
            var v := Expected(load, known, y).frame[k].values[h];
            (a <= b ==> a <= v <= b) && (b <= a ==> b <= v <= a)
  {
    var (x1, x2) := Section(known, y);
    ExpectedIs(load, known, y, x1, x2);
    var beg := Find(load, x1).value;
    var end := Find(load, x2).value;
    LerpTableAt(beg, end, x1, x2, y, k);
    LerpBetween(beg.frame[k].values[h], end.frame[k].values[h], x1, x2, y);
  }

  /** `interpolate_missing_model_years`: every model year from the first of
      the load to `endyear`, each from the section of known years around it.
      Past the last known year the loop finds no later year and keeps the
      previous section, so those years extrapolate the last two known years.
      With a single known year the first pass of the loop finds no later
      year either, and the section it then reads was never assigned. */
  method Interpolate(load: seq<Profile>, endyear: int) returns (r: Result<seq<Profile>>)
    requires Uniform(load)
    ensures |load| == 0 ==> r == Err(TypeError(RangeOfNaN))
    ensures |load| > 0 && endyear < Least(YearsOf(load)) ==> r == Err(ValueError(NothingToConcat))
    ensures |load| > 0 && Least(YearsOf(load)) <= endyear ==>
              (r.Ok? <==> |KnownOf(load, endyear)| >= 2)
    ensures |load| > 0 && Least(YearsOf(load)) <= endyear && |KnownOf(load, endyear)| < 2 ==>
              r == Err(UnboundLocalError("section_start_model_year"))
    ensures r.Ok? ==> |load| > 0 && |r.value| == endyear - Least(YearsOf(load)) + 1
    ensures r.Ok? ==> r.value == ExpectedUpTo(load, KnownOf(load, endyear), endyear)
  {
    if |load| == 0 {
      return Err(TypeError(RangeOfNaN));
    }
    var first := Least(YearsOf(load));
    if endyear < first {
      return Err(ValueError(NothingToConcat));
    }
    var known := KnownOf(load, endyear);
    if |known| < 2 {
      var i := NextKnown(known, first);
      SingleKnown(known, first, i);
      return Err(UnboundLocalError("section_start_model_year"));
    }
    var out := Sections(load, known, endyear);
    return Ok(out);
  }

  /** The loop over the model years `first..endyear` of `Interpolate`. The
      first pass always assigns the section, as the second known year lies
      after the first model year. */
  method Sections(load: seq<Profile>, known: seq<int>, endyear: int) returns (out: seq<Profile>)
    requires KnownFor(load, known) && known[0] <= endyear
    ensures out == ExpectedUpTo(load, known, endyear)
  {
    var first := known[0];
    out := [];
    var section := (first, first);
    var y := first;
    ghost var done := first - 1;
    while y <= endyear
      invariant first <= y <= endyear + 1 && done == y - 1
      invariant y > first ==> section == Section(known, done)
      invariant out == ExpectedUpTo(load, known, done)
    {
      section, out := Step(load, known, y, done, section, out);
      done := y;
      y := y + 1;
    }
  }

  /** One pass of the loop: look for the first known year after `y`,
      take the pair ending there as the section if there is one, and append
      the block of `y`. */
  method Step(load: seq<Profile>, known: seq<int>, y: int, ghost prev: int,
              section: (int, int), out: seq<Profile>) returns (section': (int, int), out': seq<Profile>)
    requires KnownFor(load, known) && known[0] <= y && prev == y - 1
    requires y > known[0] ==> section == Section(known, prev)
    requires out == ExpectedUpTo(load, known, prev)
    ensures section' == Section(known, y)
    ensures out' == ExpectedUpTo(load, known, y)
  {
    var i := NextKnown(known, y);
    if y == known[0] {
      FirstPassFinds(known, y, i);
    }
    section' := section;
    if i < |known| {
      section' := (known[i - 1], known[i]);
    }
    out' := Extend(load, known, y, prev, i, section', out);
  }

  /** One model year of the loop: the section it uses is the one `Section`
      gives, and the block it appends is the one `Expected` gives. */
  method Extend(load: seq<Profile>, known: seq<int>, y: int, ghost prev: int, i: nat,
                section: (int, int), out: seq<Profile>) returns (out': seq<Profile>)
    requires KnownFor(load, known) && known[0] <= y && prev == y - 1
    requires i <= |known| && forall j :: 0 <= j < i ==> known[j] <= y
    requires i < |known| ==> known[i] > y && section == (known[i - 1], known[i])
    requires i == |known| ==> known[0] <= prev && section == Section(known, prev)
    requires out == ExpectedUpTo(load, known, prev)
    ensures section == Section(known, y)
    ensures out' == ExpectedUpTo(load, known, y)
  {
    var (x1, x2) := section;
    SectionStep(known, y, prev, i, x1, x2);
    ExpectedIs(load, known, y, x1, x2);
    var block := LerpTable(Find(load, x1).value, Find(load, x2).value, x1, x2, y);
    ExpectedUpToStep(load, known, prev, y, out, block);
    out' := out + [Profile(y, block)];
  }

  /** The model years `first..last`, the block of each given by `f`. */
  ghost function Blocks(f: int -> Table, first: int, last: int): (r: seq<Profile>)
    ensures |r| == if last < first then 0 else last - first + 1
    decreases last - first
  {
    if last < first then [] else Blocks(f, first, last - 1) + [Profile(last, f(last))]
  }

  /** Year `y` sits at position `y - first`. */
  lemma {:induction false} BlocksAt(f: int -> Table, first: int, last: int, y: int)
    requires first <= y <= last
    ensures Blocks(f, first, last)[y - first] == Profile(y, f(y))
    decreases last - y
  {
    if y < last {
      BlocksAt(f, first, last - 1, y);
    }
  }

  /** The model years from the load's first to `last`, each the block
      `Expected` gives it. */
  ghost function ExpectedUpTo(load: seq<Profile>, known: seq<int>, last: int): (r: seq<Profile>)
    requires KnownFor(load, known)
  {
    Blocks(y => if known[0] <= y then Expected(load, known, y) else load[0].table, known[0], last)
  }

  lemma ExpectedUpToStep(load: seq<Profile>, known: seq<int>, prev: int, y: int, out: seq<Profile>, block: Table)
    requires KnownFor(load, known) && known[0] <= y && prev == y - 1
    requires out == ExpectedUpTo(load, known, prev) && block == Expected(load, known, y)
    ensures out + [Profile(y, block)] == ExpectedUpTo(load, known, y)
  {
  }

  /** Year `y` sits at position `y - first`. */
  lemma ExpectedUpToAt(load: seq<Profile>, known: seq<int>, last: int, y: int)
    requires KnownFor(load, known) && known[0] <= y <= last
    ensures |ExpectedUpTo(load, known, last)| == last - known[0] + 1
    ensures ExpectedUpTo(load, known, last)[y - known[0]] == Profile(y, Expected(load, known, y))
  {
    BlocksAt(y => if known[0] <= y then Expected(load, known, y) else load[0].table, known[0], last, y);
  }

  /** The source's inner loop: the position of the first known year after
      `y`, or the length when there is none. */
  method NextKnown(known: seq<int>, y: int) returns (i: nat)
    ensures i <= |known|
    ensures forall j :: 0 <= j < i ==> known[j] <= y
    ensures i < |known| ==> known[i] > y
  {
    i := 0;
    while i < |known| && known[i] <= y
      invariant i <= |known|
      invariant forall j :: 0 <= j < i ==> known[j] <= y
    {
      i := i + 1;
    }
  }

  /** With one known year the search from the first model year runs off
      the end: no later known year, so no section. */
  lemma SingleKnown(known: seq<int>, y: int, i: nat)
    requires |known| == 1 && known[0] == y
    requires i <= |known| && forall j :: 0 <= j < i ==> known[j] <= y
    requires i < |known| ==> known[i] > y
    ensures i == |known|
  {
  }

  /** From the first model year the search stops at the second known year. */
  lemma FirstPassFinds(known: seq<int>, y: int, i: nat)
    requires |known| >= 2 && Increasing(known) && known[0] == y
    requires i <= |known| && forall j :: 0 <= j < i ==> known[j] <= y
    requires i < |known| ==> known[i] > y
    ensures i == 1
  {
    assert known[0] < known[1];
  }

  /** One pass of the source's loop keeps the section of year `y`: a fresh
      pair when a later known year exists, the previous pair otherwise. */
  lemma SectionStep(known: seq<int>, y: int, prev: int, i: nat, x1: int, x2: int)
    requires |known| >= 2 && Increasing(known) && known[0] <= y && prev == y - 1
    requires i <= |known| && forall j :: 0 <= j < i ==> known[j] <= y
    requires i < |known| ==> known[i] > y && (x1, x2) == (known[i - 1], known[i])
    requires i == |known| ==> known[0] <= prev && (x1, x2) == Section(known, prev)
    ensures (x1, x2) == Section(known, y)
  {
    if i < |known| {
      SectionAt(known, y, i);
    } else if prev < known[|known| - 1] {
      var n := |known| - 1;
      assert known[n] <= y;
      assert known[n - 1] <= prev;
      SectionAt(known, prev, n);
    }
  }

  // ---------------------------------------------------------------------------
  // calibrate_hourly_state_load_to_historical_annuals (lines 156-269)
  // ---------------------------------------------------------------------------

  /** Every state's total over every weather year of `c` is its historical
      load of year `y`. */
  ghost predicate MatchesHistory(annual: seq<AnnualLoad>, y: int, c: Table)
  {
    forall k, h :: 0 <= k < |c.frame| && 0 <= h < |c.stamps| ==>
      Some(Total(c, k, c.stamps[h].weather)) == Historical(annual, y, c.frame[k].name)
  }

  /** Historical minus projected load of the calibration year `cal`, for
      column `k` and weather year `w`. */
  function Gap(annual: seq<AnnualLoad>, calYear: int, cal: Table, k: nat, w: int): real
  {
    HistoricalOr0(annual, calYear, NameAt(cal, k)) - Total(cal, k, w)
  }

  /** Every state's total over every weather year of `c` is that of `t`
      plus the calibration year's gap. */
  ghost predicate ShiftedByGap(annual: seq<AnnualLoad>, calYear: int, cal: Table, t: Table, c: Table)
  {
    forall k, h :: 0 <= k < |c.frame| && 0 <= h < |c.stamps| ==>
      Total(c, k, c.stamps[h].weather) == Total(t, k, c.stamps[h].weather) + Gap(annual, calYear, cal, k, c.stamps[h].weather)
  }

  function ShiftGoal(annual: seq<AnnualLoad>, calYear: int, cal: Table, t: Table): (nat, int) -> real
  {
    (k: nat, w: int) => Total(t, k, w) + Gap(annual, calYear, cal, k, w)
  }

  /** What the source needs of the loads to calibrate: one profile per
      model year with the same index and columns, no weather-year total of
      zero, and a historical load for every state of every year up to the
      last historical year. */
  ghost predicate Calibratable(load: seq<Profile>, annual: seq<AnnualLoad>)
  {
    && Uniform(load)
    && (forall i :: 0 <= i < |load| ==> Divisible(load[i].table))
    && (|annual| > 0 ==> forall i :: 0 <= i < |load| && load[i].year <= Greatest(AnnualYears(annual)) ==>
          Covers(annual, load[i].year, load[i].table))
  }

  lemma CalibratableAt(load: seq<Profile>, annual: seq<AnnualLoad>, y: int)
    requires Calibratable(load, annual) && y in YearsOf(load)
    ensures Divisible(Find(load, y).value)
    ensures |annual| > 0 && y <= Greatest(AnnualYears(annual)) ==> Covers(annual, y, Find(load, y).value)
  {
    var i :| 0 <= i < |load| && load[i] == Profile(y, Find(load, y).value);
  }

  /** The block of model year `y` scaled to its historical annual loads. */
  function ToHistory(load: seq<Profile>, annual: seq<AnnualLoad>, y: int, t: Table): (r: Table)
    requires Calibratable(load, annual) && |annual| > 0 && y <= Greatest(AnnualYears(annual))
    requires Find(load, y) == Some(t)
    ensures SameShape(t, r) && MatchesHistory(annual, y, r)
  {
    CalibratableAt(load, annual, y);
    Scale(t, annual, y)
  }

  /** The first loop: the model years `lo..hi` the load has, in order, each
      scaled to its historical annual loads. */
  function PreYears(load: seq<Profile>, annual: seq<AnnualLoad>, lo: int, hi: int): (r: seq<Profile>)
    requires Calibratable(load, annual) && |annual| > 0 && hi <= Greatest(AnnualYears(annual))
    ensures YearsOf(r) == Known(YearsOf(load), lo, hi)
    ensures forall j :: 0 <= j < |r| ==>
              SameShape(Find(load, r[j].year).value, r[j].table) && MatchesHistory(annual, r[j].year, r[j].table)
    decreases hi - lo
  {
    if lo > hi then []
    else
      var p := PreYears(load, annual, lo + 1, hi);
      var here := match Find(load, lo)
        case None => []
        case Some(t) => [Profile(lo, ToHistory(load, annual, lo, t))];
      YearsOfAppend(here, p);
      here + p
  }

  lemma YearsOfAppend(a: seq<Profile>, b: seq<Profile>)
    ensures YearsOf(a + b) == YearsOf(a) + YearsOf(b)
  {
  }

  /** `y` is the first model year from `lo` on that the load lacks. */
  ghost predicate FirstMissing(load: seq<Profile>, lo: int, y: int)
  {
    lo <= y && y !in YearsOf(load) && forall z :: lo <= z < y ==> z in YearsOf(load)
  }

  /** The second loop: the model years `lo..hi` in order, each scaled so
      that its totals grow by the calibration year's gap; `.loc` of a
      model year the load lacks raises a KeyError. */
  function PostYears(load: seq<Profile>, annual: seq<AnnualLoad>, calYear: int, cal: Table, lo: int, hi: int)
    : (r: Result<seq<Profile>>)
    requires Calibratable(load, annual) && Find(load, calYear) == Some(cal)
    ensures r.Ok? ==> forall j :: 0 <= j < |r.value| ==>
              Find(load, r.value[j].year).Some? && Shifted(load, annual, calYear, cal, Find(load, r.value[j].year).value, r.value[j].table)
    decreases hi - lo
  {
    if lo > hi then Ok([])
    else
      match Find(load, lo)
      case None => Err(KeyError(YearKey(lo)))
      case Some(t) =>
        var p :- PostYears(load, annual, calYear, cal, lo + 1, hi);
        Ok([Profile(lo, ShiftBlock(load, annual, calYear, cal, lo, t))] + p)
  }

  /** `c` is `t` scaled so that its totals grow by the calibration year's gap. */
  ghost predicate Shifted(load: seq<Profile>, annual: seq<AnnualLoad>, calYear: int, cal: Table, t: Table, c: Table)
  {
    SameShape(t, c) && ShiftedByGap(annual, calYear, cal, t, c)
  }

  /** A post-historical block scaled by `(projected + gap) / projected`. */
  function ShiftBlock(load: seq<Profile>, annual: seq<AnnualLoad>, calYear: int, cal: Table, y: int, t: Table)
    : (r: Table)
    requires Calibratable(load, annual) && Find(load, y) == Some(t)
    ensures Shifted(load, annual, calYear, cal, t, r)
  {
    CalibratableAt(load, annual, y);
    Rescale(t, ShiftGoal(annual, calYear, cal, t))
  }

  /** The second loop succeeds exactly when no model year of the range is
      missing. */
  lemma {:induction false} PostYearsOk(load: seq<Profile>, annual: seq<AnnualLoad>, calYear: int, cal: Table,
                                       lo: int, hi: int)
    requires Calibratable(load, annual) && Find(load, calYear) == Some(cal)
    ensures PostYears(load, annual, calYear, cal, lo, hi).Ok? <==> AllPresent(load, lo, hi)
    decreases hi - lo
  {
    if lo <= hi && lo in YearsOf(load) {
      PostYearsOk(load, annual, calYear, cal, lo + 1, hi);
    }
  }

  /** Every model year `lo..hi` is in the load. */
  ghost predicate AllPresent(load: seq<Profile>, lo: int, hi: int)
    decreases hi - lo
  {
    lo > hi || (lo in YearsOf(load) && AllPresent(load, lo + 1, hi))
  }

  lemma {:induction false} AllPresentIff(load: seq<Profile>, lo: int, hi: int)
    ensures AllPresent(load, lo, hi) <==> forall y :: lo <= y <= hi ==> y in YearsOf(load)
    decreases hi - lo
  {
    if lo <= hi {
      AllPresentIff(load, lo + 1, hi);
    }
  }

  /** A failing second loop names the first missing model year. */
  lemma {:induction false} PostYearsErr(load: seq<Profile>, annual: seq<AnnualLoad>, calYear: int, cal: Table,
                                        lo: int, hi: int)
    requires Calibratable(load, annual) && Find(load, calYear) == Some(cal)
    requires PostYears(load, annual, calYear, cal, lo, hi).Err?
    ensures exists y :: y <= hi && FirstMissing(load, lo, y) &&
              PostYears(load, annual, calYear, cal, lo, hi) == Err(KeyError(YearKey(y)))
    decreases hi - lo
  {
    if lo !in YearsOf(load) {
      assert FirstMissing(load, lo, lo);
    } else {
      PostYearsErr(load, annual, calYear, cal, lo + 1, hi);
      var y :| y <= hi && FirstMissing(load, lo + 1, y) &&
               PostYears(load, annual, calYear, cal, lo + 1, hi) == Err(KeyError(YearKey(y)));
      assert FirstMissing(load, lo, y);
    }
  }

  /** A successful second loop yields the model years of the range in order. */
  lemma {:induction false} PostYearsYears(load: seq<Profile>, annual: seq<AnnualLoad>, calYear: int, cal: Table,
                                          lo: int, hi: int)
    requires Calibratable(load, annual) && Find(load, calYear) == Some(cal)
    requires PostYears(load, annual, calYear, cal, lo, hi).Ok?
    ensures YearsOf(PostYears(load, annual, calYear, cal, lo, hi).value) == Known(YearsOf(load), lo, hi)
    decreases hi - lo
  {
    if lo <= hi {
      PostYearsYears(load, annual, calYear, cal, lo + 1, hi);
      var p := PostYears(load, annual, calYear, cal, lo + 1, hi).value;
      var t := Find(load, lo).value;
      var here := [Profile(lo, ShiftBlock(load, annual, calYear, cal, lo, t))];
      assert PostYears(load, annual, calYear, cal, lo, hi).value == here + p;
      YearsOfAppend(here, p);
      assert YearsOf(here) == [lo];
    }
  }

  /** Model year `p.year` of the calibrated load: the year's block scaled
      to its historical loads up to the calibration year `calYear`, and
      grown by that year's gap after it. */
  ghost predicate Calibrated(load: seq<Profile>, annual: seq<AnnualLoad>, calYear: int, p: Profile)
  {
    && p.year in YearsOf(load) && calYear in YearsOf(load)
    && (p.year <= calYear ==> SameShape(Find(load, p.year).value, p.table) && MatchesHistory(annual, p.year, p.table))
    && (p.year > calYear ==>
          Shifted(load, annual, calYear, Find(load, calYear).value, Find(load, p.year).value, p.table))
  }

  /** The last year of the historical annual loads: the calibration year. */
  function LastHistorical(annual: seq<AnnualLoad>): int
    requires |annual| > 0
  {
    Greatest(AnnualYears(annual))
  }

  /** `calibrate_hourly_state_load_to_historical_annuals`. An empty input
      makes a `range` bound NaN; the calibration year must be a model year
      of the load, and so must every year after it up to the last. */
  function Calibrate(load: seq<Profile>, annual: seq<AnnualLoad>): (r: Result<seq<Profile>>)
    requires Calibratable(load, annual)
    ensures |load| == 0 || |annual| == 0 ==> r == Err(TypeError(RangeOfNaN))
    ensures |load| > 0 && |annual| > 0 && LastHistorical(annual) !in YearsOf(load) ==>
              r == Err(KeyError(YearKey(LastHistorical(annual))))
    ensures r.Ok? ==> |load| > 0 && |annual| > 0
  {
    if |load| == 0 || |annual| == 0 then Err(TypeError(RangeOfNaN))
    else
      var calYear := LastHistorical(annual);
      var pre := PreYears(load, annual, Least(YearsOf(load)), calYear);
      match Find(load, calYear)
      case None => Err(KeyError(YearKey(calYear)))
      case Some(cal) =>
        var post :- PostYears(load, annual, calYear, cal, calYear + 1, Greatest(YearsOf(load)));
        Ok(pre + post)
  }

  /** Every block of a calibrated load is calibrated: scaled to history up
      to the calibration year, grown by its gap after it. */
  lemma CalibrateCalibrated(load: seq<Profile>, annual: seq<AnnualLoad>, j: nat)
    requires Calibratable(load, annual) && Calibrate(load, annual).Ok? && j < |Calibrate(load, annual).value|
    ensures |annual| > 0 && Calibrated(load, annual, LastHistorical(annual), Calibrate(load, annual).value[j])
  {
    var calYear := LastHistorical(annual);
    assert calYear in YearsOf(load);
    CalibrateUnfold(load, annual);
    var cal := Find(load, calYear).value;
    var post := PostYears(load, annual, calYear, cal, calYear + 1, Greatest(YearsOf(load)));
    var pre := PreYears(load, annual, Least(YearsOf(load)), calYear);
    CalibratedParts(load, annual, calYear, cal, pre, post, Calibrate(load, annual).value);
  }

  lemma CalibratedParts(load: seq<Profile>, annual: seq<AnnualLoad>, calYear: int, cal: Table,
                        pre: seq<Profile>, post: Result<seq<Profile>>, r: seq<Profile>)
    requires Calibratable(load, annual) && |load| > 0 && |annual| > 0 && calYear == LastHistorical(annual)
    requires Find(load, calYear) == Some(cal)
    requires pre == PreYears(load, annual, Least(YearsOf(load)), calYear)
    requires post == PostYears(load, annual, calYear, cal, calYear + 1, Greatest(YearsOf(load))) && post.Ok?
    requires r == pre + post.value
    ensures forall j :: 0 <= j < |r| ==> Calibrated(load, annual, calYear, r[j])
  {
    forall j | 0 <= j < |pre| ensures Calibrated(load, annual, calYear, pre[j]) {
      PreCalibrated(load, annual, calYear, pre, j);
    }
    forall i | 0 <= i < |post.value| ensures Calibrated(load, annual, calYear, post.value[i]) {
      PostCalibrated(load, annual, calYear, cal, post.value, i);
    }
    AllAppend(p => Calibrated(load, annual, calYear, p), pre, post.value);
  }

  lemma AllAppend(P: Profile -> bool, a: seq<Profile>, b: seq<Profile>)
    requires forall j :: 0 <= j < |a| ==> P(a[j])
    requires forall j :: 0 <= j < |b| ==> P(b[j])
    ensures forall j :: 0 <= j < |a + b| ==> P((a + b)[j])
  {
    forall j | 0 <= j < |a + b| ensures P((a + b)[j]) {
      if j >= |a| {
        assert (a + b)[j] == b[j - |a|];
      }
    }
  }

  lemma PreCalibrated(load: seq<Profile>, annual: seq<AnnualLoad>, calYear: int, pre: seq<Profile>, j: nat)
    requires Calibratable(load, annual) && |load| > 0 && |annual| > 0 && calYear == LastHistorical(annual)
    requires calYear in YearsOf(load)
    requires pre == PreYears(load, annual, Least(YearsOf(load)), calYear) && j < |pre|
    ensures Calibrated(load, annual, calYear, pre[j])
  {
    assert YearsOf(pre)[j] == pre[j].year;
  }

  lemma PostCalibrated(load: seq<Profile>, annual: seq<AnnualLoad>, calYear: int, cal: Table,
                       post: seq<Profile>, i: nat)
    requires Calibratable(load, annual) && |load| > 0 && |annual| > 0 && calYear == LastHistorical(annual)
    requires Find(load, calYear) == Some(cal)
    requires PostYears(load, annual, calYear, cal, calYear + 1, Greatest(YearsOf(load))) == Ok(post) && i < |post|
    ensures Calibrated(load, annual, calYear, post[i])
  {
    PostYearsYears(load, annual, calYear, cal, calYear + 1, Greatest(YearsOf(load)));
    assert YearsOf(post)[i] == post[i].year;
  }

  /** The known years of two adjacent ranges make up those of their union. */
  lemma {:induction false} KnownSplit(years: seq<int>, lo: int, mid: int, hi: int)
    requires lo <= mid + 1 && mid <= hi
    ensures Known(years, lo, mid) + Known(years, mid + 1, hi) == Known(years, lo, hi)
    decreases mid - lo
  {
    if lo <= mid {
      KnownSplit(years, lo + 1, mid, hi);
      var here := if lo in years then [lo] else [];
      calc {
        Known(years, lo, mid) + Known(years, mid + 1, hi);
        (here + Known(years, lo + 1, mid)) + Known(years, mid + 1, hi);
        { AppendAssoc(here, Known(years, lo + 1, mid), Known(years, mid + 1, hi)); }
        here + (Known(years, lo + 1, mid) + Known(years, mid + 1, hi));
        here + Known(years, lo + 1, hi);
        Known(years, lo, hi);
      }
    } else {
      assert Known(years, lo, mid) == [];
    }
  }

  lemma AppendAssoc(a: seq<int>, b: seq<int>, c: seq<int>)
    ensures (a + b) + c == a + (b + c)
  {
  }

  /** Over the full span of a list of years, the known years are exactly
      its years. */
  lemma KnownSpan(years: seq<int>)
    requires |years| > 0
    ensures forall y :: y in Known(years, Least(years), Greatest(years)) <==> y in years
  {
    forall y | y in years ensures y in Known(years, Least(years), Greatest(years)) {
      KnownHas(years, Least(years), Greatest(years), y);
    }
  }

  /** With both inputs non-empty and the calibration year a model year,
      calibration is the first loop's blocks followed by the second's. */
  lemma CalibrateUnfold(load: seq<Profile>, annual: seq<AnnualLoad>)
    requires Calibratable(load, annual) && |load| > 0 && |annual| > 0 && LastHistorical(annual) in YearsOf(load)
    ensures var post := PostYears(load, annual, LastHistorical(annual), Find(load, LastHistorical(annual)).value,
                                  LastHistorical(annual) + 1, Greatest(YearsOf(load)));
            && (post.Err? ==> Calibrate(load, annual) == Err(post.error))
            && (post.Ok? ==> Calibrate(load, annual).Ok?)
            && (post.Ok? ==>
                  Calibrate(load, annual).value == PreYears(load, annual, Least(YearsOf(load)), LastHistorical(annual)) + post.value)
  {
  }

  /** With both inputs non-empty and the calibration year a model year,
      calibration succeeds exactly when every model year after the
      calibration year up to the last is present. */
  lemma CalibrateOutcome(load: seq<Profile>, annual: seq<AnnualLoad>)
    requires Calibratable(load, annual) && |load| > 0 && |annual| > 0
    requires LastHistorical(annual) in YearsOf(load)
    ensures Calibrate(load, annual).Ok? <==>
              forall y :: LastHistorical(annual) < y <= Greatest(YearsOf(load)) ==> y in YearsOf(load)
  {
    var calYear := LastHistorical(annual);
    var last := Greatest(YearsOf(load));
    CalibrateUnfold(load, annual);
    PostYearsOk(load, annual, calYear, Find(load, calYear).value, calYear + 1, last);
    AllPresentIff(load, calYear + 1, last);
  }

  /** Otherwise it raises a KeyError for the first one missing. */
  lemma CalibrateMissing(load: seq<Profile>, annual: seq<AnnualLoad>)
    requires Calibratable(load, annual) && |load| > 0 && |annual| > 0
    requires LastHistorical(annual) in YearsOf(load) && Calibrate(load, annual).Err?
    ensures exists y :: FirstMissing(load, LastHistorical(annual) + 1, y) &&
              Calibrate(load, annual) == Err(KeyError(YearKey(y)))
  {
    var calYear := LastHistorical(annual);
    var cal := Find(load, calYear).value;
    var last := Greatest(YearsOf(load));
    CalibrateUnfold(load, annual);
    MissingWitness(load, annual, calYear, cal, last, PostYears(load, annual, calYear, cal, calYear + 1, last),
                   Calibrate(load, annual));
  }

  lemma MissingWitness(load: seq<Profile>, annual: seq<AnnualLoad>, calYear: int, cal: Table, last: int,
                       post: Result<seq<Profile>>, r: Result<seq<Profile>>)
    requires Calibratable(load, annual) && Find(load, calYear) == Some(cal)
    requires post == PostYears(load, annual, calYear, cal, calYear + 1, last) && post.Err? && r == Err(post.error)
    ensures exists y :: FirstMissing(load, calYear + 1, y) && r == Err(KeyError(YearKey(y)))
  {
    PostYearsErr(load, annual, calYear, cal, calYear + 1, last);
  }

  /** A calibrated load has every model year of the input, ascending. */
  lemma CalibrateYears(load: seq<Profile>, annual: seq<AnnualLoad>)
    requires Calibratable(load, annual) && Calibrate(load, annual).Ok?
    ensures |load| > 0
    ensures Increasing(YearsOf(Calibrate(load, annual).value))
    ensures forall y :: y in YearsOf(Calibrate(load, annual).value) <==> y in YearsOf(load)
  {
    CalibrateKnown(load, annual);
    KnownSpan(YearsOf(load));
  }

  lemma CalibrateKnown(load: seq<Profile>, annual: seq<AnnualLoad>)
    requires Calibratable(load, annual) && Calibrate(load, annual).Ok?
    ensures |load| > 0
    ensures YearsOf(Calibrate(load, annual).value) == Known(YearsOf(load), Least(YearsOf(load)), Greatest(YearsOf(load)))
  {
    var calYear := LastHistorical(annual);
    assert calYear in YearsOf(load);
    CalibrateUnfold(load, annual);
    var cal := Find(load, calYear).value;
    var post := PostYears(load, annual, calYear, cal, calYear + 1, Greatest(YearsOf(load)));
    var pre := PreYears(load, annual, Least(YearsOf(load)), calYear);
    KnownParts(load, annual, calYear, cal, pre, post, Calibrate(load, annual).value);
  }

  lemma KnownParts(load: seq<Profile>, annual: seq<AnnualLoad>, calYear: int, cal: Table,
                   pre: seq<Profile>, post: Result<seq<Profile>>, r: seq<Profile>)
    requires Calibratable(load, annual) && |load| > 0 && |annual| > 0 && calYear == LastHistorical(annual)
    requires Find(load, calYear) == Some(cal)
    requires pre == PreYears(load, annual, Least(YearsOf(load)), calYear)
    requires post == PostYears(load, annual, calYear, cal, calYear + 1, Greatest(YearsOf(load))) && post.Ok?
    requires r == pre + post.value
    ensures YearsOf(r) == Known(YearsOf(load), Least(YearsOf(load)), Greatest(YearsOf(load)))
  {
    PostYearsYears(load, annual, calYear, cal, calYear + 1, Greatest(YearsOf(load)));
    YearsOfAppend(pre, post.value);
    KnownSplit(YearsOf(load), Least(YearsOf(load)), calYear, Greatest(YearsOf(load)));
  }

  /** In the calibrated load the calibration year meets its historical
      loads, so the gap it leaves is zero: calibrating again would not
      shift the later years. */
  lemma CalibrationGapClosed(load: seq<Profile>, annual: seq<AnnualLoad>, j: nat, k: nat, h: nat)
    requires Calibratable(load, annual) && Calibrate(load, annual).Ok?
    requires j < |Calibrate(load, annual).value|
    requires Calibrate(load, annual).value[j].year == LastHistorical(annual)
    requires k < |Calibrate(load, annual).value[j].table.frame| && h < |Calibrate(load, annual).value[j].table.stamps|
    ensures var c := Calibrate(load, annual).value[j].table;
            Gap(annual, LastHistorical(annual), c, k, c.stamps[h].weather) == 0.0
  {
    CalibrateCalibrated(load, annual, j);
  }

  // ---------------------------------------------------------------------------
  // prepend_historical_hourly_state_load (lines 271-319)
  // ---------------------------------------------------------------------------

  /** Model years `lo`, `lo + 1`, ... in order, each the historical
      profile `hist` scaled to that year's historical loads. */
  ghost predicate HistoricalBlocks(hist: Table, annual: seq<AnnualLoad>, lo: int, s: seq<Profile>)
  {
    forall j :: 0 <= j < |s| ==>
      s[j].year == lo + j && SameShape(hist, s[j].table) && MatchesHistory(annual, lo + j, s[j].table)
  }

  /** The historical profile scaled to each model year `lo..hi-1`. */
  function ScaledYears(hist: Table, annual: seq<AnnualLoad>, lo: int, hi: int): (r: seq<Profile>)
    requires Divisible(hist) && forall y :: lo <= y < hi ==> Covers(annual, y, hist)
    ensures |r| == if hi <= lo then 0 else hi - lo
    ensures HistoricalBlocks(hist, annual, lo, r)
    decreases hi - lo
  {
    if hi <= lo then []
    else
      var s := ScaledYears(hist, annual, lo, hi - 1);
      var t := Scale(hist, annual, hi - 1);
      HistoricalBlocksSnoc(hist, annual, lo, s, Profile(hi - 1, t));
      s + [Profile(hi - 1, t)]
  }

  lemma HistoricalBlocksSnoc(hist: Table, annual: seq<AnnualLoad>, lo: int, s: seq<Profile>, p: Profile)
    requires HistoricalBlocks(hist, annual, lo, s)
    requires p.year == lo + |s| && SameShape(hist, p.table) && MatchesHistory(annual, p.year, p.table)
    ensures HistoricalBlocks(hist, annual, lo, s + [p])
  {
    forall j | 0 <= j < |s + [p]|
      ensures (s + [p])[j].year == lo + j && SameShape(hist, (s + [p])[j].table)
              && MatchesHistory(annual, lo + j, (s + [p])[j].table)
    {
      if j < |s| {
        assert (s + [p])[j] == s[j];
      }
    }
  }

  /** What prepending needs: a divisible historical profile with a
      historical load for every state in every year it is scaled to. */
  ghost predicate Prependable(load: seq<Profile>, hist: Table, annual: seq<AnnualLoad>)
  {
    && Divisible(hist)
    && (|load| > 0 && |annual| > 0 ==>
          forall y :: Least(AnnualYears(annual)) <= y < Least(YearsOf(load)) ==> Covers(annual, y, hist))
  }

  /** `prepend_historical_hourly_state_load`: the historical profile scaled
      to every historical model year before the first projected one, then
      the projections. The year bounds are NaN for empty inputs, and with
      no year to prepend `pd.concat` is given an empty dict. */
  function Prepend(load: seq<Profile>, hist: Table, annual: seq<AnnualLoad>): (r: Result<seq<Profile>>)
    requires Prependable(load, hist, annual)
    ensures |load| == 0 || |annual| == 0 ==> r == Err(TypeError(RangeOfNaN))
    ensures |load| > 0 && |annual| > 0 ==>
              (r.Ok? <==> Least(AnnualYears(annual)) < Least(YearsOf(load)))
    ensures |load| > 0 && |annual| > 0 && Least(AnnualYears(annual)) >= Least(YearsOf(load)) ==>
              r == Err(ValueError(NothingToConcat))
    ensures r.Ok? ==> |load| > 0 && |annual| > 0
    ensures r.Ok? ==> |r.value| == Least(YearsOf(load)) - Least(AnnualYears(annual)) + |load|
    ensures r.Ok? ==> r.value[|r.value| - |load|..] == load
    ensures r.Ok? ==> HistoricalBlocks(hist, annual, Least(AnnualYears(annual)), r.value[..|r.value| - |load|])
  {
    if |load| == 0 || |annual| == 0 then Err(TypeError(RangeOfNaN))
    else
      var lo := Least(AnnualYears(annual));
      var hi := Least(YearsOf(load));
      if lo >= hi then Err(ValueError(NothingToConcat))
      else
        var pre := ScaledYears(hist, annual, lo, hi);
        assert (pre + load)[|pre|..] == load;
        assert (pre + load)[..|pre|] == pre;
        Ok(pre + load)
  }

  /** Every prepended year comes before every projected year. */
  lemma PrependBefore(load: seq<Profile>, hist: Table, annual: seq<AnnualLoad>, j: nat, i: nat)
    requires Prependable(load, hist, annual) && Prepend(load, hist, annual).Ok?
    requires j < |Prepend(load, hist, annual).value| - |load| && i < |load|
    ensures Prepend(load, hist, annual).value[j].year < load[i].year
  {
    var r := Prepend(load, hist, annual).value;
    var n := |r| - |load|;
    assert r[..n][j] == r[j];
    assert YearsOf(load)[i] == load[i].year;
  }

  /** Prepending keeps a load uniform when the historical profile has the
      projections' index and columns: one shape, no year twice. */
  lemma PrependUniform(load: seq<Profile>, hist: Table, annual: seq<AnnualLoad>)
    requires Prependable(load, hist, annual) && Prepend(load, hist, annual).Ok?
    requires Uniform(load) && SameShape(hist, load[0].table)
    ensures Uniform(Prepend(load, hist, annual).value)
  {
    var r := Prepend(load, hist, annual).value;
    var n := |r| - |load|;
    assert r == r[..n] + r[n..];
    UniformAppend(hist, annual, Least(AnnualYears(annual)), r[..n], load);
  }

  /** Blocks of years before every year of a uniform load, all of its
      shape, extend it to a uniform load. */
  lemma UniformAppend(hist: Table, annual: seq<AnnualLoad>, lo: int, pre: seq<Profile>, load: seq<Profile>)
    requires HistoricalBlocks(hist, annual, lo, pre) && |pre| > 0
    requires Uniform(load) && |load| > 0 && SameShape(hist, load[0].table)
    requires forall i :: 0 <= i < |load| ==> lo + |pre| <= load[i].year
    ensures Uniform(pre + load)
  {
    var r := pre + load;
    var n := |pre|;
    forall i | 0 <= i < |r| ensures SameShape(r[0].table, r[i].table) {
      if i < n {
        SameShapeTrans(hist, r[0].table, r[i].table);
      } else {
        assert r[i] == load[i - n];
        SameShapeTrans(hist, load[0].table, r[0].table);
        SameShapeTrans(load[0].table, r[0].table, r[i].table);
      }
    }
    forall i, j | 0 <= i < j < |r| ensures r[i].year != r[j].year {
      if j >= n {
        assert r[j] == load[j - n];
        if i >= n {
          assert r[i] == load[i - n];
        }
      }
    }
  }
}
